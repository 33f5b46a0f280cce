/** The programs that score a transcript against a reference, each in its own data
  layout: two swapped rows, one row updated in place, rows of count triples, a full
  distance matrix, and rows with a trace of step codes.
  */
module Scorers {
  import opened Alignment

  /** Two rows swapped after each reference word, with the equal-words shortcut. */
  method WordEditDistance<T(==)>(reference: seq<T>, hypothesis: seq<T>) returns (errors: nat)
    ensures errors == Distance(reference, hypothesis)
  {
    hide Dist;
    var m, n := |reference|, |hypothesis|;
    forall j | 0 <= j <= n ensures Dist(reference, hypothesis, 0, j) == j { Recurrence(reference, hypothesis, 0, j); }
    var prev := new nat[n + 1](j => j);
    var curr := new nat[n + 1](_ => 0);
    for i := 1 to m + 1
      invariant prev != curr && prev.Length == curr.Length == n + 1
      invariant fresh(prev) && fresh(curr)
      invariant forall j :: 0 <= j <= n ==> prev[j] == Dist(reference, hypothesis, i - 1, j)
    {
      curr[0] := i;
      Recurrence(reference, hypothesis, i, 0);
      for j := 1 to n + 1
        invariant forall k :: 0 <= k <= n ==> prev[k] == Dist(reference, hypothesis, i - 1, k)
        invariant forall k :: 0 <= k < j ==> curr[k] == Dist(reference, hypothesis, i, k)
      {
        Recurrence(reference, hypothesis, i, j);
        if reference[i - 1] == hypothesis[j - 1] {
          EqualWordsShortcut(reference, hypothesis, i, j);
          curr[j] := prev[j - 1];
        } else {
          curr[j] := 1 + Min3(prev[j - 1], prev[j], curr[j - 1]);
        }
      }
      prev, curr := curr, prev;
    }
    errors := prev[n];
  }

  /** One row overwritten in place; `prev` keeps the diagonal value it overwrote. */
  method WordEditDistanceInPlace<T(==)>(reference: seq<T>, hypothesis: seq<T>) returns (errors: nat)
    ensures errors == Distance(reference, hypothesis)
  {
    hide Dist;
    var n, m := |reference|, |hypothesis|;
    forall j | 0 <= j <= m ensures Dist(reference, hypothesis, 0, j) == j { Recurrence(reference, hypothesis, 0, j); }
    if n == 0 {
      return m;
    }
    var dp := new nat[m + 1](j => j);
    for i := 1 to n + 1
      invariant forall j :: 0 <= j <= m ==> dp[j] == Dist(reference, hypothesis, i - 1, j)
    {
      var prev := dp[0];
      dp[0] := i;
      Recurrence(reference, hypothesis, i, 0);
      for j := 1 to m + 1
        invariant prev == Dist(reference, hypothesis, i - 1, j - 1)
        invariant forall k :: 0 <= k < j ==> dp[k] == Dist(reference, hypothesis, i, k)
        invariant forall k :: j <= k <= m ==> dp[k] == Dist(reference, hypothesis, i - 1, k)
      {
        Recurrence(reference, hypothesis, i, j);
        var cur := dp[j];
        dp[j] := Min3(dp[j] + 1, dp[j - 1] + 1, prev + Delta(reference, hypothesis, i - 1, j - 1));
        prev := cur;
      }
    }
    errors := dp[m];
  }

  // ----------------------------------------------------------------- edits

  /** Counts of the canonical alignment of two prefixes. */
  function PrefixCounts<T(==)>(a: seq<T>, b: seq<T>, i: nat, j: nat): Counts
    requires i <= |a| && j <= |b|
  {
    CountOps(Canonical(a, b, i, j))
  }

  /** First of three candidates with the smallest total. */
  function FirstMin(x: Counts, y: Counts, z: Counts): Counts {
    if x.Total() <= y.Total() && x.Total() <= z.Total() then x
    else if y.Total() <= z.Total() then y else z
  }

  lemma {:induction false} BorderCounts<T>(a: seq<T>, b: seq<T>, k: nat)
    ensures k <= |a| ==> PrefixCounts(a, b, k, 0) == Counts(0, k, 0)
    ensures k <= |b| ==> PrefixCounts(a, b, 0, k) == Counts(0, 0, k)
  {
    hide Dist, Canonical;
    if k == 0 {
      BacktraceStep(a, b, 0, 0);
    } else {
      BorderCounts(a, b, k - 1);
      if k <= |a| {
        Recurrence(a, b, k, 0);
        Recurrence(a, b, k - 1, 0);
        BacktraceStep(a, b, k, 0);
        CountSnoc(Canonical(a, b, k - 1, 0), Del(k - 1));
      }
      if k <= |b| {
        BacktraceStep(a, b, 0, k);
        CountSnoc(Canonical(a, b, 0, k - 1), Ins(k - 1));
      }
    }
  }

  lemma PrefixTotal<T>(a: seq<T>, b: seq<T>, i: nat, j: nat)
    requires i <= |a| && j <= |b|
    ensures PrefixCounts(a, b, i, j).Total() == Dist(a, b, i, j)
  {
    hide Dist, Canonical, AlignsPrefix, CountOps;
    CanonicalAligns(a, b, i, j);
  }

  /** The counts of a cell are those of the cell the backtrace walks to, and one more. */
  lemma StepCounts<T>(a: seq<T>, b: seq<T>, i: nat, j: nat)
    requires 0 < i <= |a| && 0 < j <= |b|
    ensures var x, y, z := PrefixCounts(a, b, i - 1, j - 1), PrefixCounts(a, b, i - 1, j), PrefixCounts(a, b, i, j - 1);
            PrefixCounts(a, b, i, j) ==
              if Dist(a, b, i, j) == Dist(a, b, i - 1, j - 1) + Delta(a, b, i - 1, j - 1) then
                (if a[i - 1] == b[j - 1] then x else x.(sub := x.sub + 1))
              else if Dist(a, b, i, j) == Dist(a, b, i - 1, j) + 1 then y.(del := y.del + 1)
              else z.(ins := z.ins + 1)
  {
    hide Dist, Canonical;
    BacktraceStep(a, b, i, j);
    CountSnoc(Canonical(a, b, i - 1, j - 1), Eq(i - 1, j - 1));
    CountSnoc(Canonical(a, b, i - 1, j - 1), Sub(i - 1, j - 1));
    CountSnoc(Canonical(a, b, i - 1, j), Del(i - 1));
    CountSnoc(Canonical(a, b, i, j - 1), Ins(j - 1));
    hide CountOps;
  }

  /** The forward tie-break (substitution, then deletion, then insertion) picks at
      every cell the predecessor the backtrace walks to. */
  lemma CellCounts<T>(a: seq<T>, b: seq<T>, i: nat, j: nat)
    requires 0 < i <= |a| && 0 < j <= |b|
    ensures a[i - 1] == b[j - 1] ==> PrefixCounts(a, b, i, j) == PrefixCounts(a, b, i - 1, j - 1)
    ensures a[i - 1] != b[j - 1] ==>
              var x, y, z := PrefixCounts(a, b, i - 1, j - 1), PrefixCounts(a, b, i - 1, j),
                PrefixCounts(a, b, i, j - 1);
              PrefixCounts(a, b, i, j) ==
                FirstMin(x.(sub := x.sub + 1), y.(del := y.del + 1), z.(ins := z.ins + 1))
  {
    hide Dist, PrefixCounts;
    Recurrence(a, b, i, j);
    StepCounts(a, b, i, j);
    PrefixTotal(a, b, i - 1, j - 1);
    PrefixTotal(a, b, i - 1, j);
    PrefixTotal(a, b, i, j - 1);
    if a[i - 1] == b[j - 1] {
      EqualWordsShortcut(a, b, i, j);
    }
  }

  /** Substitutions, deletions and insertions, one row of triples at a time. */
  method Edits<T(==)>(reference: seq<T>, hypothesis: seq<T>) returns (sdi: Counts)
    ensures sdi == CountOps(Best(reference, hypothesis))
  {
    hide Dist;
    hide Canonical;
    assert PrefixCounts(reference, hypothesis, |reference|, |hypothesis|) == CountOps(Best(reference, hypothesis));
    hide PrefixCounts;
    var row := seq(|hypothesis| + 1, j requires j >= 0 => Counts(0, 0, j));
    forall j | 0 <= j <= |hypothesis|
      ensures row[j] == PrefixCounts(reference, hypothesis, 0, j)
    {
      BorderCounts(reference, hypothesis, j);
    }
    for i := 1 to |reference| + 1
      invariant |row| == |hypothesis| + 1
      invariant forall j :: 0 <= j <= |hypothesis| ==> row[j] == PrefixCounts(reference, hypothesis, i - 1, j)
    {
      BorderCounts(reference, hypothesis, i);
      var next := [Counts(0, i, 0)];
      for j := 1 to |hypothesis| + 1
        invariant |next| == j
        invariant forall k :: 0 <= k < j ==> next[k] == PrefixCounts(reference, hypothesis, i, k)
      {
        CellCounts(reference, hypothesis, i, j);
        if reference[i - 1] == hypothesis[j - 1] {
          next := next + [row[j - 1]];
        } else {
          var x, y, z := row[j - 1], row[j], next[j - 1];
          next := next + [FirstMin(x.(sub := x.sub + 1), y.(del := y.del + 1), z.(ins := z.ins + 1))];
        }
      }
      row := next;
    }
    sdi := row[|row| - 1];
  }

  /** What the triple promises about its two inputs. */
  lemma EditsTriple<T>(a: seq<T>, b: seq<T>)
    ensures var c := CountOps(Best(a, b));
            && c.Total() == Distance(a, b)
            && c.del - c.ins == |a| - |b|
            && c.sub + c.del <= |a|
  {
    DistanceIsMinimum(a, b);
    CountsConserveWords(Best(a, b));
    assert |UpTo(|a|)| == |a| && |UpTo(|b|)| == |b|;
  }

  // ----------------------------------------------------------------- align

  function Reversed<A>(s: seq<A>): seq<A> {
    if s == [] then [] else Reversed(s[1..]) + [s[0]]
  }

  lemma {:induction false} ReversedSnoc<A>(s: seq<A>, x: A)
    ensures Reversed(s + [x]) == [x] + Reversed(s)
  {
    if s == [] {
      assert s + [x] == [x];
    } else {
      assert (s + [x])[1..] == s[1..] + [x];
      ReversedSnoc(s[1..], x);
    }
  }

  /** The full distance matrix, borders first. */
  method FillMatrix<T(==)>(reference: seq<T>, hypothesis: seq<T>) returns (dist: array2<nat>)
    ensures dist.Length0 == |reference| + 1 && dist.Length1 == |hypothesis| + 1
    ensures forall i, j :: 0 <= i <= |reference| && 0 <= j <= |hypothesis| ==>
            dist[i, j] == Dist(reference, hypothesis, i, j)
  {
    hide Dist;
    var n, m := |reference|, |hypothesis|;
    forall j | 0 <= j <= m ensures Dist(reference, hypothesis, 0, j) == j { Recurrence(reference, hypothesis, 0, j); }
    forall i | 0 <= i <= n ensures Dist(reference, hypothesis, i, 0) == i { Recurrence(reference, hypothesis, i, 0); }
    dist := new nat[n + 1, m + 1]((_, _) => 0);
    for i := 1 to n + 1
      invariant dist[0, 0] == 0
      invariant forall k :: 0 <= k < i ==> dist[k, 0] == k
    {
      dist[i, 0] := i;
    }
    for j := 1 to m + 1
      invariant forall k :: 0 <= k <= n ==> dist[k, 0] == k
      invariant forall k :: 0 <= k < j ==> dist[0, k] == k
    {
      dist[0, j] := j;
    }
    for i := 1 to n + 1
      invariant forall k :: 0 <= k <= n ==> dist[k, 0] == k
      invariant forall k, l :: 0 <= k < i && 0 <= l <= m ==> dist[k, l] == Dist(reference, hypothesis, k, l)
    {
      for j := 1 to m + 1
        invariant forall k :: 0 <= k <= n ==> dist[k, 0] == k
        invariant forall k, l :: 0 <= k < i && 0 <= l <= m ==> dist[k, l] == Dist(reference, hypothesis, k, l)
        invariant forall l :: 0 <= l < j ==> dist[i, l] == Dist(reference, hypothesis, i, l)
      {
        Recurrence(reference, hypothesis, i, j);
        dist[i, j] := Min3(dist[i - 1, j - 1] + Delta(reference, hypothesis, i - 1, j - 1),
                           dist[i - 1, j] + 1, dist[i, j - 1] + 1);
      }
    }
  }

  /** Full matrix, then a backtrace from the far corner. */
  method Align<T(==)>(reference: seq<T>, hypothesis: seq<T>) returns (alignment: seq<Op>)
    ensures alignment == Best(reference, hypothesis)
    ensures ValidAlignment(alignment, reference, hypothesis)
    ensures Cost(alignment) == Distance(reference, hypothesis)
  {
    hide Dist;
    hide Canonical;
    var n, m := |reference|, |hypothesis|;
    var dist := FillMatrix(reference, hypothesis);
    var ops, i, j := [], n, m;
    while i > 0 || j > 0
      invariant 0 <= i <= n && 0 <= j <= m
      invariant forall k, l :: 0 <= k <= n && 0 <= l <= m ==> dist[k, l] == Dist(reference, hypothesis, k, l)
      invariant Canonical(reference, hypothesis, i, j) + Reversed(ops) == Best(reference, hypothesis)
      decreases i + j
    {
      ghost var was := ops;
      BacktraceStep(reference, hypothesis, i, j);
      assert Dist(reference, hypothesis, i, j) == dist[i, j];
      if i > 0 && j > 0 && dist[i, j] == dist[i - 1, j - 1] + Delta(reference, hypothesis, i - 1, j - 1) {
        ops := ops + [if reference[i - 1] == hypothesis[j - 1] then Eq(i - 1, j - 1) else Sub(i - 1, j - 1)];
        i, j := i - 1, j - 1;
      } else if i > 0 && dist[i, j] == dist[i - 1, j] + 1 {
        ops := ops + [Del(i - 1)];
        i := i - 1;
      } else {
        ops := ops + [Ins(j - 1)];
        j := j - 1;
      }
      ReversedSnoc(was, ops[|was|]);
    }
    alignment := Reversed(ops);
    BacktraceStep(reference, hypothesis, 0, 0);
    DistanceIsMinimum(reference, hypothesis);
  }
}
