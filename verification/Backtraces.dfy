/** Two reports read off a backtrace: runs of deleted words, and capitalization of
  matched words.
  */
module Backtraces {
  import opened Alignment
  import opened Scorers

  // ------------------------------------------------------------ deletion runs

  /** Positions `first` up to `end` of an operation list. */
  datatype Block = Block(first: int, end: int)
  {
    function Length(): int { end - first }
  }

  /** A maximal block of consecutive deletions. */
  ghost predicate IsDeletionBlock(ops: seq<Op>, b: Block) {
    && 0 <= b.first < b.end <= |ops|
    && (forall k :: b.first <= k < b.end ==> ops[k].Del?)
    && (b.first > 0 ==> !ops[b.first - 1].Del?)
    && (b.end < |ops| ==> !ops[b.end].Del?)
  }

  /** `blocks` lists, left to right, exactly the maximal blocks of at least three
      deletions that start after position `after`. */
  ghost predicate ListsLongBlocks(blocks: seq<Block>, ops: seq<Op>, after: int) {
    && (forall b :: b in blocks <==> IsDeletionBlock(ops, b) && b.Length() >= 3 && b.first > after)
    && (forall i, j :: 0 <= i < j < |blocks| ==> blocks[i].end < blocks[j].first)
  }

  function RunLength(ops: seq<Op>, k: nat): nat
    requires k <= |ops|
    decreases |ops| - k
  {
    if k == |ops| || !ops[k].Del? then 0 else 1 + RunLength(ops, k + 1)
  }

  function LongRunAt(ops: seq<Op>, k: nat): seq<Block>
    requires k <= |ops|
  {
    if RunLength(ops, k) >= 3 then [Block(k, k + RunLength(ops, k))] else []
  }

  /** Long blocks from position `k` on, leaving out the run `k` itself lies in. */
  function BlocksAfter(ops: seq<Op>, k: nat): seq<Block>
    requires k <= |ops|
    decreases |ops| - k
  {
    if k == |ops| then []
    else if ops[k].Del? then BlocksAfter(ops, k + 1)
    else LongRunAt(ops, k + 1) + BlocksAfter(ops, k + 1)
  }

  function LongBlocks(ops: seq<Op>): seq<Block> {
    LongRunAt(ops, 0) + BlocksAfter(ops, 0)
  }

  function TotalLength(blocks: seq<Block>): int {
    if blocks == [] then 0 else blocks[0].Length() + TotalLength(blocks[1..])
  }

  function Sum(s: seq<nat>): nat {
    if s == [] then 0 else s[|s| - 1] + Sum(s[..|s| - 1])
  }

  lemma RunLengthSpan(ops: seq<Op>, k: nat)
    requires k <= |ops|
    ensures k + RunLength(ops, k) <= |ops|
    ensures forall x :: k <= x < k + RunLength(ops, k) ==> ops[x].Del?
    ensures k + RunLength(ops, k) < |ops| ==> !ops[k + RunLength(ops, k)].Del?
    decreases |ops| - k
  {
    if k < |ops| && ops[k].Del? { RunLengthSpan(ops, k + 1); }
  }

  /** Nothing but `block`, if it is one, starts inside it or at its end. */
  ghost predicate OnlyBlock(ops: seq<Op>, block: Block) {
    forall b :: IsDeletionBlock(ops, b) && block.first <= b.first <= block.end ==> b == block
  }

  lemma RunIsBlock(ops: seq<Op>, k: nat)
    requires k <= |ops| && (k > 0 ==> !ops[k - 1].Del?)
    ensures var block := Block(k, k + RunLength(ops, k));
            (block.first < block.end ==> IsDeletionBlock(ops, block)) && OnlyBlock(ops, block)
  {
    RunLengthSpan(ops, k);
    var block := Block(k, k + RunLength(ops, k));
    hide RunLength;
    forall b | IsDeletionBlock(ops, b) && block.first <= b.first <= block.end ensures b == block {
      assert b.first <= k;
    }
  }

  lemma PrependBlock(ops: seq<Op>, block: Block, rest: seq<Block>)
    requires IsDeletionBlock(ops, block) && OnlyBlock(ops, block)
    requires block.end - block.first >= 3 && ListsLongBlocks(rest, ops, block.end)
    ensures ListsLongBlocks([block] + rest, ops, block.first - 1)
  {
    assert block.first < block.end;
    hide IsDeletionBlock;
    var blocks := [block] + rest;
    forall i, j | 0 <= i < j < |blocks| ensures blocks[i].end < blocks[j].first {
      assert blocks[j] == rest[j - 1] && rest[j - 1] in rest;
      assert i > 0 ==> blocks[i] == rest[i - 1];
    }
  }

  lemma SkipShort(ops: seq<Op>, block: Block, rest: seq<Block>)
    requires 0 <= block.end - block.first < 3 && OnlyBlock(ops, block) && ListsLongBlocks(rest, ops, block.end)
    ensures ListsLongBlocks(rest, ops, block.first - 1)
  {
    hide IsDeletionBlock;
  }

  /** The run at `k` (the start, or just past a kept word) is the first block there. */
  lemma PrependRun(ops: seq<Op>, k: nat, rest: seq<Block>)
    requires k <= |ops| && (k > 0 ==> !ops[k - 1].Del?)
    requires ListsLongBlocks(rest, ops, k + RunLength(ops, k))
    ensures ListsLongBlocks(LongRunAt(ops, k) + rest, ops, k - 1)
  {
    hide *;
    RunIsBlock(ops, k);
    WithRun(ops, k, rest);
    var block := Block(k, k + RunLength(ops, k));
    if block.end - block.first >= 3 {
      PrependBlock(ops, block, rest);
    } else {
      SkipShort(ops, block, rest);
    }
  }

  lemma WithRun(ops: seq<Op>, k: nat, rest: seq<Block>)
    requires k <= |ops|
    ensures LongRunAt(ops, k) + rest ==
            if RunLength(ops, k) >= 3 then [Block(k, k + RunLength(ops, k))] + rest else rest
  {
    hide RunLength;
    assert [] + rest == rest;
  }

  lemma {:induction false} BlocksAfterListed(ops: seq<Op>, k: nat)
    requires k <= |ops|
    ensures ListsLongBlocks(BlocksAfter(ops, k), ops, k + RunLength(ops, k))
    decreases |ops| - k
  {
    if k < |ops| {
      hide ListsLongBlocks, LongRunAt;
      BlocksAfterListed(ops, k + 1);
      if !ops[k].Del? { PrependRun(ops, k + 1, BlocksAfter(ops, k + 1)); }
    } else {
      assert forall b :: IsDeletionBlock(ops, b) ==> b.first < k;
    }
  }

  /** The report's list is exactly the maximal long deletion blocks. */
  lemma LongBlocksListed(ops: seq<Op>)
    ensures ListsLongBlocks(LongBlocks(ops), ops, -1)
  {
    hide ListsLongBlocks, LongRunAt, BlocksAfter, RunLength;
    BlocksAfterListed(ops, 0);
    PrependRun(ops, 0, BlocksAfter(ops, 0));
  }

  function DeletionsFrom(ops: seq<Op>, k: nat): nat
    requires k <= |ops|
    decreases |ops| - k
  {
    if k == |ops| then 0 else (if ops[k].Del? then 1 else 0) + DeletionsFrom(ops, k + 1)
  }

  lemma {:induction false} DeletionsCounted(ops: seq<Op>, k: nat)
    requires k <= |ops|
    ensures CountOps(ops[..k]).del + DeletionsFrom(ops, k) == CountOps(ops).del
    decreases |ops| - k
  {
    if k == |ops| {
      assert ops[..k] == ops;
    } else {
      DeletionsCounted(ops, k + 1);
      assert ops[..k + 1] == ops[..k] + [ops[k]];
      CountSnoc(ops[..k], ops[k]);
    }
  }

  /** One step to the left: a deletion lengthens the run, anything else closes it. */
  lemma RunStep(ops: seq<Op>, k: nat)
    requires k < |ops|
    ensures ops[k].Del? ==>
              RunLength(ops, k) == 1 + RunLength(ops, k + 1) && BlocksAfter(ops, k) == BlocksAfter(ops, k + 1)
    ensures !ops[k].Del? ==>
              var d := RunLength(ops, k + 1);
              && RunLength(ops, k) == 0
              && |BlocksAfter(ops, k)| == |BlocksAfter(ops, k + 1)| + (if d >= 3 then 1 else 0)
              && TotalLength(BlocksAfter(ops, k)) == TotalLength(BlocksAfter(ops, k + 1)) + (if d >= 3 then d else 0)
  {
    if !ops[k].Del? {
      var more, block := BlocksAfter(ops, k + 1), LongRunAt(ops, k + 1);
      assert BlocksAfter(ops, k) == block + more;
      if block == [] {
        assert block + more == more;
      } else {
        assert (block + more)[1..] == more;
      }
    }
  }

  lemma FirstRun(ops: seq<Op>)
    ensures var d := RunLength(ops, 0);
            && |LongBlocks(ops)| == |BlocksAfter(ops, 0)| + (if d >= 3 then 1 else 0)
            && TotalLength(LongBlocks(ops)) == TotalLength(BlocksAfter(ops, 0)) + (if d >= 3 then d else 0)
  {
    if RunLength(ops, 0) >= 3 {
      assert LongBlocks(ops)[1..] == BlocksAfter(ops, 0);
    } else {
      assert LongBlocks(ops) == BlocksAfter(ops, 0);
    }
  }

  lemma {:induction false} BlocksWithinDeletions(ops: seq<Op>, k: nat)
    requires k <= |ops|
    ensures 3 * |BlocksAfter(ops, k)| <= TotalLength(BlocksAfter(ops, k))
    ensures RunLength(ops, k) + TotalLength(BlocksAfter(ops, k)) <= DeletionsFrom(ops, k)
    decreases |ops| - k
  {
    if k < |ops| {
      assert DeletionsFrom(ops, k) == (if ops[k].Del? then 1 else 0) + DeletionsFrom(ops, k + 1);
      hide *;
      BlocksWithinDeletions(ops, k + 1);
      RunStep(ops, k);
    }
  }

  /** Words in runs are deletions, so they are bounded by the edits and by the reference. */
  lemma DeletionRunBounds<T>(a: seq<T>, b: seq<T>)
    ensures var blocks := LongBlocks(Best(a, b));
            && 3 * |blocks| <= TotalLength(blocks)
            && TotalLength(blocks) <= Distance(a, b)
            && TotalLength(blocks) <= |a|
  {
    var ops := Best(a, b);
    BlocksWithinDeletions(ops, 0);
    DeletionsCounted(ops, 0);
    EditsTriple(a, b);
    FirstRun(ops);
  }

  /** Step code the trace stores: 0 diagonal, 1 deletion, 2 insertion. */
  ghost predicate IsStep<T>(step: int, a: seq<T>, b: seq<T>, i: nat, j: nat)
    requires 0 < i <= |a| && 0 < j <= |b|
  {
    if Dist(a, b, i, j) == Dist(a, b, i - 1, j - 1) + Delta(a, b, i - 1, j - 1) then step == 0
    else if Dist(a, b, i, j) == Dist(a, b, i - 1, j) + 1 then step == 1
    else step == 2
  }

  ghost predicate IsStepRow<T>(steps: seq<int>, a: seq<T>, b: seq<T>, i: nat)
    requires 0 < i <= |a|
  {
    |steps| == |b| + 1 && forall j :: 0 < j <= |b| ==> IsStep(steps[j], a, b, i, j)
  }

  datatype Score = Score(referenceWords: nat, edits: nat, deletionRuns: nat, wordsInRuns: int)
  datatype ScoreResult = Scored(score: Score) | EmptyReference

  /** Rolling distance rows and a trace of step codes; the last row is returned. */
  method BuildTrace<T(==)>(a: seq<T>, b: seq<T>) returns (row: seq<nat>, trace: seq<seq<int>>)
    ensures |row| == |b| + 1 && row[|b|] == Distance(a, b)
    ensures |trace| == |a| + 1
    ensures forall i :: 0 < i <= |a| ==> IsStepRow(trace[i], a, b, i)
  {
    hide Dist;
    row := seq(|b| + 1, j requires j >= 0 => j);
    forall j | 0 <= j <= |b| ensures row[j] == Dist(a, b, 0, j) { Recurrence(a, b, 0, j); }
    trace := [seq(|b| + 1, _ => 2)];
    for i := 1 to |a| + 1
      invariant |row| == |b| + 1 && |trace| == i
      invariant forall j :: 0 <= j <= |b| ==> row[j] == Dist(a, b, i - 1, j)
      invariant forall k :: 0 < k < i ==> IsStepRow(trace[k], a, b, k)
    {
      Recurrence(a, b, i, 0);
      var next: seq<nat>, steps := [i], [1];
      for j := 1 to |b| + 1
        invariant |next| == |steps| == j
        invariant forall l :: 0 <= l < j ==> next[l] == Dist(a, b, i, l)
        invariant forall l :: 0 < l < j ==> IsStep(steps[l], a, b, i, l)
      {
        Recurrence(a, b, i, j);
        var diagonal, deletion, insertion := row[j - 1] + Delta(a, b, i - 1, j - 1), row[j] + 1, next[j - 1] + 1;
        var step := if diagonal <= deletion && diagonal <= insertion then 0
                    else if deletion <= insertion then 1 else 2;
        next := next + [Min3(diagonal, deletion, insertion)];
        steps := steps + [step];
      }
      row := next;
      trace := trace + [steps];
    }
  }

  lemma NoRun(ops: seq<Op>)
    ensures Measured(ops, |ops|, 0, [])
  {
  }

  lemma SumSnoc(s: seq<nat>, x: nat)
    ensures Sum(s + [x]) == Sum(s) + x
  {
    assert (s + [x])[..|s|] == s;
  }

  /** The counters of the walk just left of position `k`. */
  ghost predicate Measured(ops: seq<Op>, k: nat, deleted: nat, runs: seq<nat>)
    requires k <= |ops|
  {
    deleted == RunLength(ops, k) && |runs| == |BlocksAfter(ops, k)| && Sum(runs) == TotalLength(BlocksAfter(ops, k))
  }

  function CloseRun(deleted: nat, runs: seq<nat>): seq<nat> {
    if deleted >= 3 then runs + [deleted] else runs
  }

  lemma MeasureStep(ops: seq<Op>, k: nat, deleted: nat, runs: seq<nat>)
    requires k < |ops| && Measured(ops, k + 1, deleted, runs)
    ensures if ops[k].Del? then Measured(ops, k, deleted + 1, runs) else Measured(ops, k, 0, CloseRun(deleted, runs))
  {
    RunStep(ops, k);
    SumSnoc(runs, deleted);
    hide RunLength, BlocksAfter, TotalLength, Sum;
  }

  lemma MeasureEnd(ops: seq<Op>, deleted: nat, runs: seq<nat>)
    requires Measured(ops, 0, deleted, runs)
    ensures |CloseRun(deleted, runs)| == |LongBlocks(ops)|
            && Sum(CloseRun(deleted, runs)) == TotalLength(LongBlocks(ops))
  {
    FirstRun(ops);
    SumSnoc(runs, deleted);
    hide RunLength, BlocksAfter, TotalLength, Sum, LongBlocks;
  }

  /** Rolling distance rows, a trace of step codes, and a backward walk that measures
      each run of deletions. An empty reference is rejected. */
  method ScoreDeletionRuns<T(==)>(a: seq<T>, b: seq<T>) returns (result: ScoreResult)
    ensures result.EmptyReference? <==> a == []
    ensures a != [] ==>
              result == Scored(Score(|a|, Distance(a, b), |LongBlocks(Best(a, b))|,
                TotalLength(LongBlocks(Best(a, b)))))
  {
    hide Dist;
    hide Canonical, IsStep, Measured;
    if a == [] {
      return EmptyReference;
    }
    hide RunLength, BlocksAfter, TotalLength, Sum, LongBlocks;
    var row, trace := BuildTrace(a, b);
    ghost var best := Best(a, b);
    var i, j, deleted, runs := |a|, |b|, 0, [];
    NoRun(best);
    while i > 0 || j > 0
      invariant 0 <= i <= |a| && 0 <= j <= |b|
      invariant Canonical(a, b, i, j) <= best
      invariant Measured(best, |Canonical(a, b, i, j)|, deleted, runs)
      decreases i + j
    {
      var step := if i == 0 then 2 else if j == 0 then 1 else trace[i][j];
      ghost var k := WalkStep(a, b, i, j, step);
      assert best[k] == Canonical(a, b, i, j)[k];
      MeasureStep(best, k, deleted, runs);
      if step == 1 {
        deleted := deleted + 1;
        i := i - 1;
      } else {
        if deleted >= 3 {
          runs := runs + [deleted];
        }
        deleted := 0;
        if step == 0 {
          i := i - 1;
        }
        j := j - 1;
      }
    }
    BacktraceStep(a, b, 0, 0);
    MeasureEnd(best, deleted, runs);
    if deleted >= 3 {
      runs := runs + [deleted];
    }
    result := Scored(Score(|a|, row[|row| - 1], |runs|, Sum(runs)));
  }

  /** The move a step code asks for, and the operation it walks over. */
  lemma WalkStep<T>(a: seq<T>, b: seq<T>, i: nat, j: nat, step: int) returns (k: nat)
    requires i <= |a| && j <= |b| && i + j > 0
    requires if i == 0 then step == 2 else if j == 0 then step == 1 else IsStep(step, a, b, i, j)
    ensures step == 0 || step == 1 || step == 2
    ensures (step != 2 ==> i > 0) && (step != 1 ==> j > 0)
    ensures var earlier := Canonical(a, b, if step == 2 then i else i - 1, if step == 1 then j else j - 1);
            && k == |earlier| == |Canonical(a, b, i, j)| - 1 && earlier <= Canonical(a, b, i, j)
            && (Canonical(a, b, i, j)[k].Del? <==> step == 1)
  {
    hide Dist;
    hide Canonical;
    BacktraceStep(a, b, i, j);
    Recurrence(a, b, i, j);
    if i > 0 { Recurrence(a, b, i - 1, j); }
    k := |Canonical(a, b, i, j)| - 1;
  }

  // ------------------------------------------------------------ capitalization

  /** Number of matched pairs whose reference word is capitalized as `r` says and
      whose hypothesis word as `h` says. */
  function Cased<W>(ops: seq<Op>, ref: seq<W>, hyp: seq<W>, upper: W -> bool, r: bool, h: bool): nat {
    if ops == [] then 0 else
    var init, last := ops[..|ops| - 1], ops[|ops| - 1];
    var counts := last.Eq? && last.i < |ref| && last.j < |hyp| && upper(ref[last.i]) == r && upper(hyp[last.j]) == h;
    Cased(init, ref, hyp, upper, r, h) + (if counts then 1 else 0)
  }

  function Matched(ops: seq<Op>): nat {
    if ops == [] then 0 else Matched(ops[..|ops| - 1]) + (if ops[|ops| - 1].Eq? then 1 else 0)
  }

  function Map<W, K>(f: W -> K, s: seq<W>): (r: seq<K>)
    ensures |r| == |s| && forall k :: 0 <= k < |s| ==> r[k] == f(s[k])
  {
    seq(|s|, k requires 0 <= k < |s| => f(s[k]))
  }

  datatype Casing = Casing(aligned: nat, errors: nat, tp: nat, fp: nat, fn: nat)

  /** The five counters over one operation list. */
  function CasingOf<W>(ops: seq<Op>, ref: seq<W>, hyp: seq<W>, upper: W -> bool): Casing {
    var fp, fn := Cased(ops, ref, hyp, upper, false, true), Cased(ops, ref, hyp, upper, true, false);
    Casing(Matched(ops), fp + fn, Cased(ops, ref, hyp, upper, true, true), fp, fn)
  }

  lemma CasingSnoc<W>(ops: seq<Op>, op: Op, ref: seq<W>, hyp: seq<W>, upper: W -> bool)
    requires op.Eq? ==> op.i < |ref| && op.j < |hyp|
    ensures var c := CasingOf(ops, ref, hyp, upper);
            CasingOf(ops + [op], ref, hyp, upper) ==
              if !op.Eq? then c else
              var r, h := upper(ref[op.i]), upper(hyp[op.j]);
              Casing(c.aligned + 1, c.errors + (if r != h then 1 else 0), c.tp + (if r && h then 1 else 0),
                     c.fp + (if !r && h then 1 else 0), c.fn + (if r && !h then 1 else 0))
  {
    assert (ops + [op])[..|ops|] == ops;
  }

  lemma {:induction false} BorderCasing<T, W>(a: seq<T>, b: seq<T>, i: nat, j: nat, ref: seq<W>, hyp: seq<W>,
                                              upper: W -> bool)
    requires i <= |a| && j <= |b| && (i == 0 || j == 0)
    ensures CasingOf(Canonical(a, b, i, j), ref, hyp, upper) == Casing(0, 0, 0, 0, 0)
    decreases i + j
  {
    hide Dist;
    hide Canonical;
    BacktraceStep(a, b, i, j);
    if i > 0 || j > 0 {
      var ops := Canonical(a, b, i, j);
      BorderCasing(a, b, if i > 0 then i - 1 else 0, if j > 0 then j - 1 else 0, ref, hyp, upper);
      CasingSnoc(ops[..|ops| - 1], ops[|ops| - 1], ref, hyp, upper);
      CellHolds(a, b, i, j);
      assert ops == ops[..|ops| - 1] + [ops[|ops| - 1]];
    }
  }

  /** Full matrix over the folded words, then a walk that stops at a border and counts
      the case of matched words. */
  method CountCasing<W, K(==)>(ref: seq<W>, hyp: seq<W>, fold: W -> K, upper: W -> bool) returns (c: Casing)
    ensures c == CasingOf(Best(Map(fold, ref), Map(fold, hyp)), ref, hyp, upper)
  {
    hide Dist;
    hide Canonical;
    hide CasingOf;
    var a, b := Map(fold, ref), Map(fold, hyp);
    var matrix := [seq(|b| + 1, j requires j >= 0 => j)];
    forall j | 0 <= j <= |b| ensures matrix[0][j] == Dist(a, b, 0, j) { Recurrence(a, b, 0, j); }
    for i := 1 to |a| + 1
      invariant |matrix| == i
      invariant forall k :: 0 <= k < i ==> |matrix[k]| == |b| + 1
      invariant forall k, l :: 0 <= k < i && 0 <= l <= |b| ==> matrix[k][l] == Dist(a, b, k, l)
    {
      Recurrence(a, b, i, 0);
      var row := [i];
      for j := 1 to |b| + 1
        invariant |row| == j
        invariant forall l :: 0 <= l < j ==> row[l] == Dist(a, b, i, l)
      {
        Recurrence(a, b, i, j);
        row := row + [Min3(matrix[i - 1][j] + 1, row[j - 1] + 1, matrix[i - 1][j - 1] + Delta(a, b, i - 1, j - 1))];
      }
      matrix := matrix + [row];
    }
    var i, j := |a|, |b|;
    var tp, fp, fn, matched, errors := 0, 0, 0, 0, 0;
    while i > 0 && j > 0
      invariant 0 <= i <= |a| && 0 <= j <= |b|
      invariant Plus(Casing(matched, errors, tp, fp, fn), CasingOf(Canonical(a, b, i, j), ref, hyp, upper)) ==
                CasingOf(Best(a, b), ref, hyp, upper)
      decreases i + j
    {
      BacktraceStep(a, b, i, j);
      CasingSnoc(Canonical(a, b, i - 1, j - 1), Eq(i - 1, j - 1), ref, hyp, upper);
      CasingSnoc(Canonical(a, b, i - 1, j - 1), Sub(i - 1, j - 1), ref, hyp, upper);
      CasingSnoc(Canonical(a, b, i - 1, j), Del(i - 1), ref, hyp, upper);
      CasingSnoc(Canonical(a, b, i, j - 1), Ins(j - 1), ref, hyp, upper);
      if matrix[i][j] == matrix[i - 1][j - 1] + Delta(a, b, i - 1, j - 1) {
        if a[i - 1] == b[j - 1] {
          var r, h := upper(ref[i - 1]), upper(hyp[j - 1]);
          matched := matched + 1;
          errors := errors + (if r != h then 1 else 0);
          tp := tp + (if r && h then 1 else 0);
          fp := fp + (if !r && h then 1 else 0);
          fn := fn + (if r && !h then 1 else 0);
        }
        i, j := i - 1, j - 1;
      } else if matrix[i][j] == matrix[i - 1][j] + 1 {
        i := i - 1;
      } else {
        j := j - 1;
      }
    }
    BorderCasing(a, b, i, j, ref, hyp, upper);
    c := Casing(matched, errors, tp, fp, fn);
  }

  function Plus(x: Casing, y: Casing): Casing {
    Casing(x.aligned + y.aligned, x.errors + y.errors, x.tp + y.tp, x.fp + y.fp, x.fn + y.fn)
  }

  /** The counters partition the matched words: what is neither a true positive nor
      an error is lower-case on both sides. */
  lemma {:induction false} CasingPartition<W>(ops: seq<Op>, ref: seq<W>, hyp: seq<W>, upper: W -> bool)
    requires forall k :: 0 <= k < |ops| && ops[k].Eq? ==> ops[k].i < |ref| && ops[k].j < |hyp|
    ensures var c := CasingOf(ops, ref, hyp, upper);
            && c.tp + c.errors + Cased(ops, ref, hyp, upper, false, false) == c.aligned
            && c.errors == c.fp + c.fn
  {
    if ops != [] {
      CasingPartition(ops[..|ops| - 1], ref, hyp, upper);
    }
  }

  lemma {:induction false} MatchedComplement(ops: seq<Op>)
    ensures Matched(ops) + CountOps(ops).sub + CountOps(ops).del == |RefIndices(ops)|
  {
    if ops != [] { MatchedComplement(ops[..|ops| - 1]); }
  }

  /** The capitalization report, for all inputs: counted words are matched words, errors
      are the two kinds of miss, and the matched words are those the edit triple of the
      folded words leaves over. */
  lemma CasingReport<W, K>(ref: seq<W>, hyp: seq<W>, fold: W -> K, upper: W -> bool)
    ensures var a, b := Map(fold, ref), Map(fold, hyp);
            var c, e := CasingOf(Best(a, b), ref, hyp, upper), CountOps(Best(a, b));
            && c.errors == c.fp + c.fn
            && c.tp + c.fp + c.fn <= c.aligned
            && c.aligned == |ref| - e.sub - e.del
  {
    var a, b := Map(fold, ref), Map(fold, hyp);
    DistanceIsMinimum(a, b);
    forall k | 0 <= k < |Best(a, b)| && Best(a, b)[k].Eq?
      ensures Best(a, b)[k].i < |ref| && Best(a, b)[k].j < |hyp|
    {
      assert Labelled(Best(a, b)[k], a, b);
    }
    CasingPartition(Best(a, b), ref, hyp, upper);
    MatchedComplement(Best(a, b));
  }

  /** Folding words never adds edits, so the case-sensitive count is at least the
      count on folded words. */
  lemma {:induction false} FoldingContracts<W, K>(a: seq<W>, b: seq<W>, fold: W -> K, i: nat, j: nat)
    requires i <= |a| && j <= |b|
    ensures Dist(Map(fold, a), Map(fold, b), i, j) <= Dist(a, b, i, j)
    decreases i, j
  {
    hide Dist;
    Recurrence(a, b, i, j);
    Recurrence(Map(fold, a), Map(fold, b), i, j);
    if i > 0 && j > 0 {
      FoldingContracts(a, b, fold, i - 1, j - 1);
      FoldingContracts(a, b, fold, i - 1, j);
      FoldingContracts(a, b, fold, i, j - 1);
    }
  }
}
