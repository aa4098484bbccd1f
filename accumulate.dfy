/**
  The walk of `calculate_abc` (python_abc/calculate.py): every node of the tree is
  classified, and each vector that carries a line is added to the file's total and its
  notation appended to that line's decoration. Parsing and the walk order are the
  parser's business: the walk is given as the sequence of nodes it yields.
*/
module Accumulation {
  import opened Wrappers
  import opened Ast
  import opened AbcVector
  import opened Classifier

  /** `len(source.split("\n"))`: one line more than there are line breaks. */
  function LineCount(source: string): (n: nat)
    ensures n == multiset(source)['\n'] + 1
  {
    if source == [] then 1
    else
      var init := source[..|source| - 1];
      assert source == init + [source[|source| - 1]];
      LineCount(init) + if source[|source| - 1] == '\n' then 1 else 0
  }

  predicate WalkPositioned(walk: seq<Node>) {
    forall n :: n in walk ==> WellPositioned(n)
  }

  /** Every vector the walk produces, node after node. */
  function Contributions(walk: seq<Node>): seq<Vector>
    requires WalkPositioned(walk)
  {
    if walk == [] then []
    else
      assert forall n :: n in walk[..|walk| - 1] ==> n in walk;
      Contributions(walk[..|walk| - 1]) + Classify(walk[|walk| - 1])
  }

  /** The walk's total: the sum of the vectors that carry a line; the walk skips the others. */
  function Total(vs: seq<Vector>): (t: Vector)
    ensures t.lineno == 0 && t.node == None
  {
    if vs == [] then Origin
    else if vs[|vs| - 1].lineno == 0 then Total(vs[..|vs| - 1])
    else Add(Total(vs[..|vs| - 1]), vs[|vs| - 1])
  }

  /** What the walk appends to line `line`'s decoration: the notations of that line's vectors, in order. */
  function DecorationAt(vs: seq<Vector>, line: int): string {
    if vs == [] then ""
    else DecorationAt(vs[..|vs| - 1], line) + OnLine(vs[|vs| - 1], line)
  }

  /** What vector `v` appends to line `line`'s decoration. */
  function OnLine(v: Vector, line: int): string {
    if v.lineno == line then Notation(v) else ""
  }

  /** The decoration of every line of the source. */
  function Decorations(vs: seq<Vector>, lineCount: nat): (d: map<int, string>)
    ensures forall l :: l in d <==> 1 <= l <= lineCount
  {
    map l | 1 <= l <= lineCount :: DecorationAt(vs, l)
  }

  /** Every vector that carries a line names a line of the source. */
  predicate LinesKnown(vs: seq<Vector>, lineCount: nat) {
    forall k :: 0 <= k < |vs| ==> vs[k].lineno == 0 || 1 <= vs[k].lineno <= lineCount
  }

  /** `vs[k]` is the first vector whose line is not a line of the source. */
  predicate FirstUnknownLine(vs: seq<Vector>, lineCount: nat, k: nat) {
    k < |vs| && vs[k].lineno != 0 && !(1 <= vs[k].lineno <= lineCount) && LinesKnown(vs[..k], lineCount)
  }

  datatype Report = Report(total: Vector, decorations: map<int, string>)

  /** The walk ends with a report, or with `KeyError` on a line the source does not have. */
  datatype Outcome = Finished(report: Report) | MissingLine(lineno: int)

  // ---------------------------------------------------------------- one step of the fold

  lemma ContributionsStep(walk: seq<Node>, i: nat)
    requires WalkPositioned(walk) && i < |walk|
    ensures WalkPositioned(walk[..i]) && WalkPositioned(walk[..i + 1])
    ensures Contributions(walk[..i + 1]) == Contributions(walk[..i]) + Classify(walk[i])
  {
    assert walk[..i + 1][..i] == walk[..i];
    assert forall n :: n in walk[..i + 1] ==> n in walk;
  }

  lemma {:induction false} ContributionsAppend(a: seq<Node>, b: seq<Node>)
    requires WalkPositioned(a) && WalkPositioned(b)
    ensures WalkPositioned(a + b)
    ensures Contributions(a + b) == Contributions(a) + Contributions(b)
    decreases |b|
  {
    assert forall n :: n in a + b ==> n in a || n in b;
    if b == [] {
      assert a + b == a;
    } else {
      var b', last := b[..|b| - 1], b[|b| - 1];
      assert forall n :: n in b' ==> n in b;
      assert (a + b)[..|a + b| - 1] == a + b';
      ContributionsAppend(a, b');
    }
  }

  lemma DecorationsStep(vs: seq<Vector>, v: Vector, lineCount: nat)
    requires v.lineno == 0 || 1 <= v.lineno <= lineCount
    ensures var d := Decorations(vs, lineCount);
            Decorations(vs + [v], lineCount)
            == if v.lineno == 0 then d else d[v.lineno := d[v.lineno] + Notation(v)]
  {
    assert (vs + [v])[..|vs|] == vs;
    var d, d' := Decorations(vs, lineCount), Decorations(vs + [v], lineCount);
    assert forall l :: l in d ==> d'[l] == d[l] + OnLine(v, l);
    if v.lineno == 0 {
      assert forall l :: l in d ==> d'[l] == d[l];
    } else {
      var e := d[v.lineno := d[v.lineno] + Notation(v)];
      assert forall l :: l in d ==> d'[l] == e[l];
    }
  }

  /** The walk's vectors split around node `i`'s. */
  lemma ContributionsSplit(walk: seq<Node>, i: nat) returns (rest: seq<Vector>)
    requires WalkPositioned(walk) && i < |walk|
    ensures WalkPositioned(walk[..i])
    ensures Contributions(walk) == Contributions(walk[..i]) + Classify(walk[i]) + rest
  {
    ContributionsStep(walk, i);
    assert walk == walk[..i + 1] + walk[i + 1..];
    assert forall n :: n in walk[i + 1..] ==> n in walk;
    ContributionsAppend(walk[..i + 1], walk[i + 1..]);
    rest := Contributions(walk[i + 1..]);
  }

  lemma Regroup(before: seq<Vector>, vectors: seq<Vector>, j: nat, rest: seq<Vector>)
    requires j < |vectors|
    ensures before + vectors[..j + 1] == before + vectors[..j] + [vectors[j]]
    ensures before + vectors + rest == before + vectors[..j] + [vectors[j]] + (vectors[j + 1..] + rest)
  {
    assert vectors == vectors[..j] + [vectors[j]] + vectors[j + 1..];
  }

  lemma FirstUnknownInside(done: seq<Vector>, v: Vector, rest: seq<Vector>, lineCount: nat)
    requires LinesKnown(done, lineCount) && v.lineno != 0 && !(1 <= v.lineno <= lineCount)
    ensures FirstUnknownLine(done + [v] + rest, lineCount, |done|)
  {
    assert (done + [v] + rest)[..|done|] == done;
  }

  lemma FirstUnknownExtends(vs: seq<Vector>, rest: seq<Vector>, lineCount: nat, k: nat)
    requires FirstUnknownLine(vs, lineCount, k)
    ensures FirstUnknownLine(vs + rest, lineCount, k) && (vs + rest)[k] == vs[k]
    ensures !LinesKnown(vs + rest, lineCount)
  {
    assert (vs + rest)[..k] == vs[..k];
  }

  lemma LinesKnownStep(done: seq<Vector>, v: Vector, lineCount: nat)
    requires LinesKnown(done, lineCount) && (v.lineno == 0 || 1 <= v.lineno <= lineCount)
    ensures LinesKnown(done + [v], lineCount)
  {
  }

  lemma TotalStep(done: seq<Vector>, v: Vector)
    ensures Total(done + [v]) == if v.lineno == 0 then Total(done) else Add(Total(done), v)
  {
    assert (done + [v])[..|done|] == done;
  }

  // ---------------------------------------------------------------- the walk

  /**
    The inner loop of `calculate_abc`: the vectors of one node, in order, each skipped
    when it has no line and otherwise added to the total and noted on its line, until one
    names a line the source does not have.
  */
  method AccumulateVectors(total: Vector, temp: map<int, string>, vectors: seq<Vector>,
                           ghost done: seq<Vector>, lineCount: nat)
    returns (total': Vector, temp': map<int, string>, missing: Option<int>)
    requires LinesKnown(done, lineCount) && total == Total(done) && temp == Decorations(done, lineCount)
    ensures missing.None? ==>
              && LinesKnown(done + vectors, lineCount)
              && total' == Total(done + vectors)
              && temp' == Decorations(done + vectors, lineCount)
    ensures missing.Some? ==>
              exists k: nat :: FirstUnknownLine(done + vectors, lineCount, k) && (done + vectors)[k].lineno == missing.value
  {
    total', temp', missing := total, temp, None;
    ghost var sofar := done;
    for j := 0 to |vectors|
      invariant sofar == done + vectors[..j]
      invariant LinesKnown(sofar, lineCount)
      invariant total' == Total(sofar)
      invariant temp' == Decorations(sofar, lineCount)
    {
      var v := vectors[j];
      Regroup(done, vectors, j, []);
      if v.lineno != 0 && v.lineno !in temp' {
        missing := Some(v.lineno);
        Regroup(done, vectors, j, []);
        FirstUnknownInside(sofar, v, vectors[j + 1..], lineCount);
        assert done + vectors == sofar + [v] + vectors[j + 1..] by {
          assert vectors == vectors[..j] + [v] + vectors[j + 1..];
        }
        return;
      }
      LinesKnownStep(sofar, v, lineCount);
      TotalStep(sofar, v);
      DecorationsStep(sofar, v, lineCount);
      if v.lineno != 0 {
        total' := Add(total', v);
        temp' := temp'[v.lineno := temp'[v.lineno] + Notation(v)];
      }
      sofar := sofar + [v];
    }
    assert vectors[..|vectors|] == vectors;
  }

  /**
    `calculate_abc` with the tree's walk given: the total starts at `Vector(0, 0, 0)`, a
    vector without a line is skipped, and every other one is added to the total and its
    notation appended to its line's decoration, which starts empty for each source line.
  */
  method CalculateAbc(source: string, walk: seq<Node>) returns (outcome: Outcome)
    requires WalkPositioned(walk)
    ensures var vs, n := Contributions(walk), LineCount(source);
            LinesKnown(vs, n) ==> outcome == Finished(Report(Total(vs), Decorations(vs, n)))
    ensures var vs, n := Contributions(walk), LineCount(source);
            !LinesKnown(vs, n) ==>
              outcome.MissingLine? && exists k: nat :: FirstUnknownLine(vs, n, k) && vs[k].lineno == outcome.lineno
  {
    var lineCount := LineCount(source);
    var total := Origin;
    var temp := Decorations([], lineCount);
    ghost var done: seq<Vector> := [];
    for i := 0 to |walk|
      invariant WalkPositioned(walk[..i]) && done == Contributions(walk[..i])
      invariant LinesKnown(done, lineCount)
      invariant total == Total(done)
      invariant temp == Decorations(done, lineCount)
    {
      var vectors := ClassifyNode(walk[i]);
      var missing;
      total, temp, missing := AccumulateVectors(total, temp, vectors, done, lineCount);
      if missing.Some? {
        outcome := MissingLine(missing.value);
        ghost var rest := ContributionsSplit(walk, i);
        ghost var k: nat :| FirstUnknownLine(done + vectors, lineCount, k) && (done + vectors)[k].lineno == missing.value;
        FirstUnknownExtends(done + vectors, rest, lineCount, k);
        return;
      }
      assert WalkPositioned(walk[..i + 1]) && done + vectors == Contributions(walk[..i + 1]) by {
        ContributionsStep(walk, i);
      }
      done := done + vectors;
    }
    assert walk[..|walk|] == walk;
    outcome := Finished(Report(total, temp));
  }

  // ---------------------------------------------------------------- what the report says

  /** Adding vectors adds their letters. */
  lemma LettersAdd(x: Vector, y: Vector)
    ensures Letters(Add(x, y)) == Letters(x) + Letters(y)
  {
    NotationAdditive(x, y);
  }

  /** The walk's total of a concatenation adds the two totals. */
  lemma {:induction false} TotalAppend(xs: seq<Vector>, ys: seq<Vector>)
    ensures Total(xs + ys) == Add(Total(xs), Total(ys))
    decreases |ys|
  {
    if ys == [] {
      assert xs + ys == xs;
    } else {
      var init, y := ys[..|ys| - 1], ys[|ys| - 1];
      assert ys == init + [y];
      assert xs + ys == (xs + init) + [y];
      TotalAppend(xs, init);
      TotalStep(xs + init, y);
      TotalStep(init, y);
      if y.lineno != 0 {
        AddAssociative(Total(xs), Total(init), y);
      }
    }
  }

  /** Leaving out vectors without a line loses nothing when those are empty. */
  lemma {:induction false} TotalOfLinedVectors(vs: seq<Vector>)
    requires forall v :: v in vs ==> v.lineno != 0 || Weight(v) == 0
    ensures SameCounters(Total(vs), Sum(vs))
  {
    if vs != [] {
      var init := vs[..|vs| - 1];
      assert forall v :: v in init ==> v in vs;
      TotalOfLinedVectors(init);
    }
  }

  /** What one node adds to the total is its row of the rule table. */
  lemma NodeTotal(n: Node)
    requires WellPositioned(n)
    ensures var t := Total(Classify(n)); (t.assignment, t.branch, t.condition) == RuleCounts(n)
  {
    ClassifyCounts(n);
    if n.Positionless? {
      DefaultRuleIsEmpty(n);
      var e := Empty(n, 0);
      assert Total([e]) == Total([]) by {
        assert [e][..0] == [];
      }
      assert Sum([e]) == Add(Sum([]), e) by {
        assert [e][..0] == [];
      }
    } else {
      TotalOfLinedVectors(Classify(n));
    }
  }

  /** The letters of a node's row of the rule table. */
  function TableLetters(n: Node): multiset<char> {
    if WellPositioned(n) then Letters(Vector(RuleCounts(n).0, RuleCounts(n).1, RuleCounts(n).2, 0, None)) else multiset{}
  }

  /** The letters each node of a walk contributes, gathered node after node. */
  function WalkLetters(walk: seq<Node>, f: Node -> multiset<char>): multiset<char> {
    if walk == [] then multiset{} else WalkLetters(walk[..|walk| - 1], f) + f(walk[|walk| - 1])
  }

  lemma {:induction false} WalkLettersRemove(a: seq<Node>, x: Node, b: seq<Node>, f: Node -> multiset<char>)
    ensures WalkLetters(a + [x] + b, f) == WalkLetters(a + b, f) + f(x)
    decreases |b|
  {
    if b == [] {
      assert a + [x] + b == a + [x];
      assert (a + [x])[..|a|] == a;
      assert a + b == a;
    } else {
      var init, y := b[..|b| - 1], b[|b| - 1];
      assert (a + [x] + b)[..|a + [x] + b| - 1] == a + [x] + init;
      assert (a + b)[..|a + b| - 1] == a + init;
      WalkLettersRemove(a, x, init, f);
    }
  }

  /** Gathering letters does not depend on the order of the walk. */
  lemma {:induction false} WalkLettersPermutation(w1: seq<Node>, w2: seq<Node>, f: Node -> multiset<char>)
    requires multiset(w1) == multiset(w2)
    ensures WalkLetters(w1, f) == WalkLetters(w2, f)
    decreases |w1|
  {
    if w1 == [] {
      assert |w2| == |multiset(w2)| == 0;
    } else {
      var init, x := w1[..|w1| - 1], w1[|w1| - 1];
      var i := DropLast(w1, w2);
      var a, b := w2[..i], w2[i + 1..];
      WalkLettersPermutation(init, a + b, f);
      WalkLettersRemove(a, x, b, f);
    }
  }

  /** The last node of one walk sits somewhere in a permutation of it; both lose it alike. */
  lemma DropLast(w1: seq<Node>, w2: seq<Node>) returns (i: nat)
    requires w1 != [] && multiset(w1) == multiset(w2)
    ensures i < |w2| && w2[i] == w1[|w1| - 1]
    ensures w2 == w2[..i] + [w2[i]] + w2[i + 1..]
    ensures multiset(w1[..|w1| - 1]) == multiset(w2[..i] + w2[i + 1..])
  {
    var init, x := w1[..|w1| - 1], w1[|w1| - 1];
    assert w1 == init + [x];
    assert x in multiset(w2);
    i :| 0 <= i < |w2| && w2[i] == x;
    var a, b := w2[..i], w2[i + 1..];
    assert w2 == a + [x] + b;
    assert multiset(w1) == multiset(init) + multiset{x};
    assert multiset(w2) == multiset(a) + multiset{x} + multiset(b);
    assert multiset(a + b) == multiset(a) + multiset(b);
    assert multiset(init) == multiset(w1) - multiset{x};
    assert multiset(a + b) == multiset(w2) - multiset{x};
  }

  /** The file's total is the rule table summed over the nodes of the walk. */
  lemma {:induction false} WalkTotalFollowsTable(walk: seq<Node>)
    requires WalkPositioned(walk)
    ensures Letters(Total(Contributions(walk))) == WalkLetters(walk, TableLetters)
  {
    if walk != [] {
      var init, last := walk[..|walk| - 1], walk[|walk| - 1];
      assert forall n :: n in init ==> n in walk;
      WalkTotalFollowsTable(init);
      TotalAppend(Contributions(init), Classify(last));
      LettersAdd(Total(Contributions(init)), Total(Classify(last)));
      NodeTotal(last);
    }
  }

  /** Two vectors with the same letters, line and node are the same vector. */
  lemma LettersDetermineTotal(x: Vector, y: Vector)
    requires Letters(x) == Letters(y)
    requires x.lineno == y.lineno && x.node == y.node
    ensures x == y
  {
    assert Letters(x)['a'] == x.assignment && Letters(y)['a'] == y.assignment;
    assert Letters(x)['b'] == x.branch && Letters(y)['b'] == y.branch;
    assert Letters(x)['c'] == x.condition && Letters(y)['c'] == y.condition;
  }

  lemma PermutedWalkPositioned(w1: seq<Node>, w2: seq<Node>)
    requires WalkPositioned(w1) && multiset(w1) == multiset(w2)
    ensures WalkPositioned(w2)
  {
    forall n | n in w2 ensures WellPositioned(n) {
      assert n in multiset(w2);
    }
  }

  /** Walking the same nodes in another order gives the same total. */
  lemma TotalIndependentOfWalkOrder(w1: seq<Node>, w2: seq<Node>)
    requires WalkPositioned(w1) && multiset(w1) == multiset(w2)
    ensures WalkPositioned(w2) && Total(Contributions(w1)) == Total(Contributions(w2))
  {
    PermutedWalkPositioned(w1, w2);
    WalkTotalFollowsTable(w1);
    WalkTotalFollowsTable(w2);
    WalkLettersPermutation(w1, w2, TableLetters);
    LettersDetermineTotal(Total(Contributions(w1)), Total(Contributions(w2)));
  }

  /** A line's decoration over a concatenation: the first part's, then the second's. */
  lemma {:induction false} DecorationAppend(xs: seq<Vector>, ys: seq<Vector>, line: int)
    ensures DecorationAt(xs + ys, line) == DecorationAt(xs, line) + DecorationAt(ys, line)
    decreases |ys|
  {
    if ys == [] {
      assert xs + ys == xs;
    } else {
      var init, last := ys[..|ys| - 1], ys[|ys| - 1];
      assert (xs + ys)[..|xs + ys| - 1] == xs + init;
      assert (xs + ys)[|xs + ys| - 1] == last;
      DecorationAppend(xs, init, line);
      assert DecorationAt(xs + ys, line) == DecorationAt(xs + init, line) + OnLine(last, line);
    }
  }

  /** Later vectors only ever append to a line's decoration. */
  lemma DecorationOnlyGrows(vs: seq<Vector>, ws: seq<Vector>, line: int)
    ensures DecorationAt(vs, line) <= DecorationAt(vs + ws, line)
  {
    DecorationAppend(vs, ws, line);
  }

  /** The letters a node puts on line `line`. */
  function LineLetters(n: Node, line: int): multiset<char> {
    if WellPositioned(n) then multiset(DecorationAt(Classify(n), line)) else multiset{}
  }

  lemma {:induction false} DecorationFollowsNodes(walk: seq<Node>, line: int)
    requires WalkPositioned(walk)
    ensures multiset(DecorationAt(Contributions(walk), line)) == WalkLetters(walk, n => LineLetters(n, line))
  {
    if walk != [] {
      var init, last := walk[..|walk| - 1], walk[|walk| - 1];
      assert forall n :: n in init ==> n in walk;
      DecorationFollowsNodes(init, line);
      DecorationAppend(Contributions(init), Classify(last), line);
    }
  }

  /** Walking the same nodes in another order puts the same letters on every line. */
  lemma DecorationIndependentOfWalkOrder(w1: seq<Node>, w2: seq<Node>, line: int)
    requires WalkPositioned(w1) && multiset(w1) == multiset(w2)
    ensures WalkPositioned(w2)
    ensures multiset(DecorationAt(Contributions(w1), line)) == multiset(DecorationAt(Contributions(w2), line))
  {
    PermutedWalkPositioned(w1, w2);
    DecorationFollowsNodes(w1, line);
    DecorationFollowsNodes(w2, line);
    WalkLettersPermutation(w1, w2, n => LineLetters(n, line));
  }

  /** The decorations of lines 1 to `count`, read one after the other. */
  function Joined(vs: seq<Vector>, count: nat): string {
    if count == 0 then "" else Joined(vs, count - 1) + DecorationAt(vs, count)
  }

  /** The letters the vectors put on line `line`. */
  function LettersOnLine(vs: seq<Vector>, line: int): multiset<char> {
    if vs == [] then multiset{}
    else LettersOnLine(vs[..|vs| - 1], line) + if vs[|vs| - 1].lineno == line then Letters(vs[|vs| - 1]) else multiset{}
  }

  /** The letters on lines 1 to `count`. */
  function LineBags(vs: seq<Vector>, count: nat): multiset<char> {
    if count == 0 then multiset{} else LineBags(vs, count - 1) + LettersOnLine(vs, count)
  }

  /** A line's decoration holds the letters of that line's vectors. */
  lemma {:induction false} DecorationLetters(vs: seq<Vector>, line: int)
    ensures multiset(DecorationAt(vs, line)) == LettersOnLine(vs, line)
  {
    if vs != [] {
      var init, v := vs[..|vs| - 1], vs[|vs| - 1];
      DecorationLetters(init, line);
      var before, added := DecorationAt(init, line), OnLine(v, line);
      assert DecorationAt(vs, line) == before + added;
      assert multiset(before + added) == multiset(before) + multiset(added);
    }
  }

  lemma {:induction false} JoinedLetters(vs: seq<Vector>, count: nat)
    ensures multiset(Joined(vs, count)) == LineBags(vs, count)
  {
    if count != 0 {
      JoinedLetters(vs, count - 1);
      DecorationLetters(vs, count);
      assert multiset(Joined(vs, count)) == multiset(Joined(vs, count - 1)) + multiset(DecorationAt(vs, count));
    }
  }

  lemma {:induction false} LineBagsStep(vs: seq<Vector>, v: Vector, count: nat)
    ensures LineBags(vs + [v], count)
            == LineBags(vs, count) + if 1 <= v.lineno <= count then Letters(v) else multiset{}
  {
    if count != 0 {
      LineBagsStep(vs, v, count - 1);
      assert (vs + [v])[..|vs|] == vs;
      BagShuffle(LineBags(vs, count - 1), LettersOnLine(vs, count), Letters(v),
                 1 <= v.lineno <= count - 1, v.lineno == count);
    }
  }

  lemma BagShuffle(a: multiset<char>, m: multiset<char>, l: multiset<char>, p: bool, q: bool)
    requires !(p && q)
    ensures (a + (if p then l else multiset{})) + (m + (if q then l else multiset{}))
            == (a + m) + (if p || q then l else multiset{})
  {
  }

  /**
    Every letter of the total sits on exactly one line: read together, the decorations of
    the source's lines hold the total's letters, no more and no fewer.
  */
  lemma {:induction false} DecorationsAccountForTotal(vs: seq<Vector>, lineCount: nat)
    requires LinesKnown(vs, lineCount)
    ensures multiset(Joined(vs, lineCount)) == Letters(Total(vs))
    ensures |Joined(vs, lineCount)| == Weight(Total(vs))
  {
    JoinedLetters(vs, lineCount);
    TotalLetters(vs, lineCount);
    assert |multiset(Joined(vs, lineCount))| == |Letters(Total(vs))|;
  }

  lemma {:induction false} TotalLetters(vs: seq<Vector>, lineCount: nat)
    requires LinesKnown(vs, lineCount)
    ensures LineBags(vs, lineCount) == Letters(Total(vs))
  {
    if vs == [] {
      LineBagsOfNothing(lineCount);
    } else {
      var init, v := vs[..|vs| - 1], vs[|vs| - 1];
      assert vs == init + [v];
      assert LinesKnown(init, lineCount) by {
        forall k | 0 <= k < |init| ensures init[k] == vs[k] { }
      }
      TotalLetters(init, lineCount);
      LineBagsStep(init, v, lineCount);
      if v.lineno != 0 {
        LettersAdd(Total(init), v);
      }
    }
  }

  lemma {:induction false} LineBagsOfNothing(count: nat)
    ensures LineBags([], count) == multiset{}
  {
    if count != 0 {
      LineBagsOfNothing(count - 1);
    }
  }
}
