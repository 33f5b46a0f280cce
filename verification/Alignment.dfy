/** Word alignments and their edit counts.

  `ValidAlignment` is the reference notion: a list of operations whose reference
  indices and hypothesis indices each count up from zero. `Dist` is the
  recurrence every scorer tabulates, and `Canonical` the one alignment that every
  backtrace walks.
  */
module Alignment {

  datatype Op = Eq(i: nat, j: nat) | Sub(i: nat, j: nat) | Del(i: nat) | Ins(j: nat)

  // ---------------------------------------------------------------- alignments

  /** The reference positions an operation list consumes, in order. */
  function RefIndices(ops: seq<Op>): seq<nat> {
    if ops == [] then [] else
    var init, last := ops[..|ops| - 1], ops[|ops| - 1];
    RefIndices(init) + (if last.Ins? then [] else [last.i])
  }

  /** The hypothesis positions an operation list consumes, in order. */
  function HypIndices(ops: seq<Op>): seq<nat> {
    if ops == [] then [] else
    var init, last := ops[..|ops| - 1], ops[|ops| - 1];
    HypIndices(init) + (if last.Del? then [] else [last.j])
  }

  function UpTo(n: nat): (s: seq<nat>) {
    seq(n, k requires 0 <= k < n => k)
  }

  /** `op` labels its pair of words correctly. */
  ghost predicate Labelled<T>(op: Op, a: seq<T>, b: seq<T>) {
    match op
    case Eq(i, j) => i < |a| && j < |b| && a[i] == b[j]
    case Sub(i, j) => i < |a| && j < |b| && a[i] != b[j]
    case Del(i) => i < |a|
    case Ins(j) => j < |b|
  }

  /** `ops` aligns the first `n` words of `a` with the first `m` words of `b`. */
  ghost predicate AlignsPrefix<T>(ops: seq<Op>, a: seq<T>, b: seq<T>, n: nat, m: nat) {
    && RefIndices(ops) == UpTo(n)
    && HypIndices(ops) == UpTo(m)
    && forall k :: 0 <= k < |ops| ==> Labelled(ops[k], a, b)
  }

  ghost predicate ValidAlignment<T>(ops: seq<Op>, a: seq<T>, b: seq<T>) {
    AlignsPrefix(ops, a, b, |a|, |b|)
  }

  datatype Counts = Counts(sub: nat, del: nat, ins: nat) {
    function Total(): nat { sub + del + ins }
  }

  function CountOps(ops: seq<Op>): (c: Counts) {
    if ops == [] then Counts(0, 0, 0) else
    var c := CountOps(ops[..|ops| - 1]);
    match ops[|ops| - 1]
    case Eq(_, _) => c
    case Sub(_, _) => c.(sub := c.sub + 1)
    case Del(_) => c.(del := c.del + 1)
    case Ins(_) => c.(ins := c.ins + 1)
  }

  /** Number of operations that are edits. */
  function Cost(ops: seq<Op>): nat {
    CountOps(ops).Total()
  }

  lemma CountSnoc(ops: seq<Op>, op: Op)
    ensures CountOps(ops + [op]) ==
            match op {
              case Eq(_, _) => CountOps(ops)
              case Sub(_, _) => CountOps(ops).(sub := CountOps(ops).sub + 1)
              case Del(_) => CountOps(ops).(del := CountOps(ops).del + 1)
              case Ins(_) => CountOps(ops).(ins := CountOps(ops).ins + 1)
            }
    ensures RefIndices(ops + [op]) == RefIndices(ops) + (if op.Ins? then [] else [op.i])
    ensures HypIndices(ops + [op]) == HypIndices(ops) + (if op.Del? then [] else [op.j])
  {
    assert (ops + [op])[..|ops|] == ops;
  }

  /** Every alignment, whatever its cost, conserves words: each reference word is
      matched, substituted or deleted, each hypothesis word matched, substituted or
      inserted. */
  lemma {:induction false} CountsConserveWords(ops: seq<Op>)
    ensures CountOps(ops).del + |HypIndices(ops)| == CountOps(ops).ins + |RefIndices(ops)|
    ensures CountOps(ops).sub + CountOps(ops).del <= |RefIndices(ops)|
  {
    if ops != [] {
      CountsConserveWords(ops[..|ops| - 1]);
    }
  }

  // ------------------------------------------------------- the tabulated recurrence

  function Min3(x: int, y: int, z: int): int {
    if x <= y && x <= z then x else if y <= z then y else z
  }

  function Delta<T(==)>(a: seq<T>, b: seq<T>, i: nat, j: nat): nat
    requires i < |a| && j < |b|
  {
    if a[i] == b[j] then 0 else 1
  }

  function Dist<T(==)>(a: seq<T>, b: seq<T>, i: nat, j: nat): nat
    requires i <= |a| && j <= |b|
    decreases i, j
  {
    if i == 0 then j
    else if j == 0 then i
    else Min3(Dist(a, b, i - 1, j - 1) + Delta(a, b, i - 1, j - 1),
              Dist(a, b, i - 1, j) + 1,
              Dist(a, b, i, j - 1) + 1)
  }

  function Distance<T(==)>(a: seq<T>, b: seq<T>): nat {
    Dist(a, b, |a|, |b|)
  }

  /** The alignment every backtrace recovers: diagonal if it is tight, else
      deletion if it is tight, else insertion. */
  function Canonical<T(==)>(a: seq<T>, b: seq<T>, i: nat, j: nat): seq<Op>
    requires i <= |a| && j <= |b|
    decreases i, j
  {
    if i == 0 && j == 0 then []
    else if i > 0 && j > 0 && Dist(a, b, i, j) == Dist(a, b, i - 1, j - 1) + Delta(a, b, i - 1, j - 1) then
      Canonical(a, b, i - 1, j - 1) + [if a[i - 1] == b[j - 1] then Eq(i - 1, j - 1) else Sub(i - 1, j - 1)]
    else if i > 0 && Dist(a, b, i, j) == Dist(a, b, i - 1, j) + 1 then
      Canonical(a, b, i - 1, j) + [Del(i - 1)]
    else
      Canonical(a, b, i, j - 1) + [Ins(j - 1)]
  }

  function Best<T(==)>(a: seq<T>, b: seq<T>): seq<Op> {
    Canonical(a, b, |a|, |b|)
  }

  lemma {:induction false} AdjacentCells<T>(a: seq<T>, b: seq<T>, i: nat, j: nat)
    requires i <= |a| && j <= |b|
    ensures i > 0 ==> Dist(a, b, i - 1, j) <= Dist(a, b, i, j) + 1 && Dist(a, b, i, j) <= Dist(a, b, i - 1, j) + 1
    ensures j > 0 ==> Dist(a, b, i, j - 1) <= Dist(a, b, i, j) + 1 && Dist(a, b, i, j) <= Dist(a, b, i, j - 1) + 1
    decreases i, j
  {
    hide Dist;
    Recurrence(a, b, i, j);
    if i > 0 {
      Recurrence(a, b, i - 1, j);
      AdjacentCells(a, b, i - 1, j);
    }
    if j > 0 {
      Recurrence(a, b, i, j - 1);
      AdjacentCells(a, b, i, j - 1);
    }
  }

  /** One unfolding of the recurrence, for proofs that hide its definition. */
  lemma Recurrence<T>(a: seq<T>, b: seq<T>, i: nat, j: nat)
    requires i <= |a| && j <= |b|
    ensures i == 0 ==> Dist(a, b, i, j) == j
    ensures j == 0 ==> Dist(a, b, i, j) == i
    ensures i > 0 && j > 0 ==>
              Dist(a, b, i, j) == Min3(Dist(a, b, i - 1, j - 1) + Delta(a, b, i - 1, j - 1),
                                       Dist(a, b, i - 1, j) + 1,
                                       Dist(a, b, i, j - 1) + 1)
  {
  }

  /** What the recurrence says about one cell: it is bounded by its three
      predecessors and equal to one of them. */
  ghost predicate Cell<T>(a: seq<T>, b: seq<T>, i: nat, j: nat)
    requires i <= |a| && j <= |b|
  {
    && (i > 0 && j > 0 ==> Dist(a, b, i, j) <= Dist(a, b, i - 1, j - 1) + Delta(a, b, i - 1, j - 1))
    && (i > 0 ==> Dist(a, b, i, j) <= Dist(a, b, i - 1, j) + 1)
    && (j > 0 ==> Dist(a, b, i, j) <= Dist(a, b, i, j - 1) + 1)
    && (|| (i == 0 && j == 0 && Dist(a, b, i, j) == 0)
        || (i > 0 && j > 0 && Dist(a, b, i, j) == Dist(a, b, i - 1, j - 1) + Delta(a, b, i - 1, j - 1))
        || (i > 0 && Dist(a, b, i, j) == Dist(a, b, i - 1, j) + 1)
        || (j > 0 && Dist(a, b, i, j) == Dist(a, b, i, j - 1) + 1))
  }

  lemma CellHolds<T>(a: seq<T>, b: seq<T>, i: nat, j: nat)
    requires i <= |a| && j <= |b|
    ensures Cell(a, b, i, j)
  {
    AdjacentCells(a, b, i, j);
  }

  // ------------------------------------------------------------ minimum edit count

  lemma ExtendAlignment<T>(ops: seq<Op>, op: Op, a: seq<T>, b: seq<T>, i: nat, j: nat)
    requires AlignsPrefix(ops, a, b, i, j) && Labelled(op, a, b)
    requires !op.Ins? ==> op.i == i
    requires !op.Del? ==> op.j == j
    ensures AlignsPrefix(ops + [op], a, b, if op.Ins? then i else i + 1, if op.Del? then j else j + 1)
    ensures Cost(ops + [op]) == Cost(ops) + (if op.Eq? then 0 else 1)
  {
    CountSnoc(ops, op);
    assert UpTo(i + 1) == UpTo(i) + [i];
    assert UpTo(j + 1) == UpTo(j) + [j];
  }

  lemma {:induction false} CanonicalAligns<T>(a: seq<T>, b: seq<T>, i: nat, j: nat)
    requires i <= |a| && j <= |b|
    ensures AlignsPrefix(Canonical(a, b, i, j), a, b, i, j)
    ensures Cost(Canonical(a, b, i, j)) == Dist(a, b, i, j)
    decreases i, j
  {
    hide Dist;
    hide Canonical;
    CellHolds(a, b, i, j);
    BacktraceStep(a, b, i, j);
    if i == 0 && j == 0 {
      assert UpTo(0) == [];
    } else if i > 0 && j > 0 && Dist(a, b, i, j) == Dist(a, b, i - 1, j - 1) + Delta(a, b, i - 1, j - 1) {
      CanonicalAligns(a, b, i - 1, j - 1);
      ExtendAlignment(Canonical(a, b, i - 1, j - 1),
        if a[i - 1] == b[j - 1] then Eq(i - 1, j - 1) else Sub(i - 1, j - 1), a, b, i - 1, j - 1);
    } else if i > 0 && Dist(a, b, i, j) == Dist(a, b, i - 1, j) + 1 {
      CanonicalAligns(a, b, i - 1, j);
      ExtendAlignment(Canonical(a, b, i - 1, j), Del(i - 1), a, b, i - 1, j);
    } else {
      CanonicalAligns(a, b, i, j - 1);
      ExtendAlignment(Canonical(a, b, i, j - 1), Ins(j - 1), a, b, i, j - 1);
    }
  }

  lemma UpToSplit(s: seq<nat>, x: nat, n: nat)
    requires s + [x] == UpTo(n)
    ensures n > 0 && x == n - 1 && s == UpTo(n - 1)
  {
    assert (s + [x])[|s|] == x;
    forall k | 0 <= k < |s| ensures s[k] == k { assert s[k] == (s + [x])[k]; }
  }

  lemma {:induction false} AlignmentCostsAtLeastDist<T>(ops: seq<Op>, a: seq<T>, b: seq<T>, n: nat, m: nat)
    requires n <= |a| && m <= |b| && AlignsPrefix(ops, a, b, n, m)
    ensures Cost(ops) >= Dist(a, b, n, m)
    decreases |ops|
  {
    hide Dist;
    CellHolds(a, b, n, m);
    if ops == [] {
      assert |UpTo(n)| == n && |UpTo(m)| == m;
    } else {
      var init, last := ops[..|ops| - 1], ops[|ops| - 1];
      assert Labelled(last, a, b);
      assert forall k :: 0 <= k < |init| ==> Labelled(ops[k], a, b);
      if !last.Ins? { UpToSplit(RefIndices(init), last.i, n); }
      if !last.Del? { UpToSplit(HypIndices(init), last.j, m); }
      AlignmentCostsAtLeastDist(init, a, b, if last.Ins? then n else n - 1, if last.Del? then m else m - 1);
    }
  }

  /** The recurrence computes the minimum edit count over all alignments: some
      alignment attains it and none is cheaper. */
  lemma DistanceIsMinimum<T>(a: seq<T>, b: seq<T>)
    ensures ValidAlignment(Best(a, b), a, b) && Cost(Best(a, b)) == Distance(a, b)
    ensures forall ops :: ValidAlignment(ops, a, b) ==> Cost(ops) >= Distance(a, b)
  {
    CanonicalAligns(a, b, |a|, |b|);
    forall ops | ValidAlignment(ops, a, b) ensures Cost(ops) >= Distance(a, b) {
      AlignmentCostsAtLeastDist(ops, a, b, |a|, |b|);
    }
  }

  /** One unfolding of the backtrace. */
  lemma BacktraceStep<T>(a: seq<T>, b: seq<T>, i: nat, j: nat)
    requires i <= |a| && j <= |b|
    ensures
      if i == 0 && j == 0 then Canonical(a, b, i, j) == []
      else if i > 0 && j > 0 && Dist(a, b, i, j) == Dist(a, b, i - 1, j - 1) + Delta(a, b, i - 1, j - 1) then
        Canonical(a, b, i, j) == Canonical(a, b, i - 1, j - 1)
                                 + [if a[i - 1] == b[j - 1] then Eq(i - 1, j - 1) else Sub(i - 1, j - 1)]
      else if i > 0 && Dist(a, b, i, j) == Dist(a, b, i - 1, j) + 1 then
        Canonical(a, b, i, j) == Canonical(a, b, i - 1, j) + [Del(i - 1)]
      else j > 0 && Canonical(a, b, i, j) == Canonical(a, b, i, j - 1) + [Ins(j - 1)]
  {
    hide Dist;
    CellHolds(a, b, i, j);
  }

  // ------------------------------------------------------------ equal-words shortcut

  /** On equal words the diagonal alone is as good as the three-way minimum. */
  lemma EqualWordsShortcut<T>(a: seq<T>, b: seq<T>, i: nat, j: nat)
    requires 0 < i <= |a| && 0 < j <= |b| && a[i - 1] == b[j - 1]
    ensures Dist(a, b, i, j) == Dist(a, b, i - 1, j - 1)
  {
    AdjacentCells(a, b, i - 1, j);
    AdjacentCells(a, b, i, j - 1);
  }

  // --------------------------------------------------------------------- metric

  lemma {:induction false} DistSymmetric<T>(a: seq<T>, b: seq<T>, i: nat, j: nat)
    requires i <= |a| && j <= |b|
    ensures Dist(a, b, i, j) == Dist(b, a, j, i)
    decreases i, j
  {
    hide Dist;
    Recurrence(a, b, i, j);
    Recurrence(b, a, j, i);
    if i > 0 && j > 0 {
      DistSymmetric(a, b, i - 1, j - 1);
      DistSymmetric(a, b, i - 1, j);
      DistSymmetric(a, b, i, j - 1);
    }
  }

  lemma {:induction false} DistZero<T>(a: seq<T>, b: seq<T>, i: nat, j: nat)
    requires i <= |a| && j <= |b|
    ensures Dist(a, b, i, j) == 0 <==> a[..i] == b[..j]
    decreases i, j
  {
    if i > 0 && j > 0 {
      DistZero(a, b, i - 1, j - 1);
      assert a[..i] == a[..i - 1] + [a[i - 1]] && b[..j] == b[..j - 1] + [b[j - 1]];
      if a[..i] == b[..j] {
        assert a[..i][i - 1] == b[..j][j - 1];
        assert a[..i - 1] == a[..i][..i - 1] == b[..j][..j - 1] == b[..j - 1];
      }
    }
  }

  /** Composing an alignment of `a` with `b` and one of `b` with `c`, last
      operations first. */
  lemma {:induction false} DistTriangle<T>(a: seq<T>, b: seq<T>, c: seq<T>, i: nat, j: nat, k: nat)
    requires i <= |a| && j <= |b| && k <= |c|
    ensures Dist(a, c, i, k) <= Dist(a, b, i, j) + Dist(b, c, j, k)
    decreases i + j + k
  {
    hide Dist;
    CellHolds(a, b, i, j);
    CellHolds(b, c, j, k);
    CellHolds(a, c, i, k);
    if i > 0 && Dist(a, b, i, j) == Dist(a, b, i - 1, j) + 1 {
      DistTriangle(a, b, c, i - 1, j, k);
    } else if k > 0 && Dist(b, c, j, k) == Dist(b, c, j, k - 1) + 1 {
      DistTriangle(a, b, c, i, j, k - 1);
    } else if j > 0 {
      // the last word of b is inserted or diagonal on the left, deleted or diagonal on the right
      if Dist(a, b, i, j) == Dist(a, b, i, j - 1) + 1 {
        if Dist(b, c, j, k) == Dist(b, c, j - 1, k) + 1 {
          DistTriangle(a, b, c, i, j - 1, k);
        } else {
          DistTriangle(a, b, c, i, j - 1, k - 1);
        }
      } else if Dist(b, c, j, k) == Dist(b, c, j - 1, k) + 1 {
        DistTriangle(a, b, c, i - 1, j - 1, k);
      } else {
        DistTriangle(a, b, c, i - 1, j - 1, k - 1);
      }
    }
  }

  lemma DistanceIsMetric<T>(a: seq<T>, b: seq<T>, c: seq<T>)
    ensures Distance(a, b) == 0 <==> a == b
    ensures Distance(a, b) == Distance(b, a)
    ensures Distance(a, c) <= Distance(a, b) + Distance(b, c)
  {
    DistZero(a, b, |a|, |b|);
    assert a[..|a|] == a && b[..|b|] == b;
    DistSymmetric(a, b, |a|, |b|);
    DistTriangle(a, b, c, |a|, |b|, |c|);
  }

  // ------------------------------------------------- reading a corpus comparison

  /** One recording: its reference and two transcripts of it. */
  datatype Case<T> = Case(reference: seq<T>, before: seq<T>, after: seq<T>)

  function ErrorsBefore<T(==)>(cases: seq<Case<T>>): int {
    if cases == [] then 0 else Distance(cases[0].reference, cases[0].before) + ErrorsBefore(cases[1..])
  }

  function ErrorsAfter<T(==)>(cases: seq<Case<T>>): int {
    if cases == [] then 0 else Distance(cases[0].reference, cases[0].after) + ErrorsAfter(cases[1..])
  }

  function Disagreement<T(==)>(cases: seq<Case<T>>): int {
    if cases == [] then 0 else Distance(cases[0].before, cases[0].after) + Disagreement(cases[1..])
  }

  /** The reported disagreement between two runs bounds the change of their total
      word errors, over any corpus. */
  lemma {:induction false} DisagreementBoundsErrorChange<T>(cases: seq<Case<T>>)
    ensures -Disagreement(cases) <= ErrorsAfter(cases) - ErrorsBefore(cases) <= Disagreement(cases)
  {
    if cases != [] {
      var c := cases[0];
      DistanceIsMetric(c.reference, c.before, c.after);
      DistanceIsMetric(c.reference, c.after, c.before);
      DistanceIsMetric(c.before, c.after, c.before);
      DisagreementBoundsErrorChange(cases[1..]);
    }
  }
}
