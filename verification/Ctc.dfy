/** Greedy CTC decoding: the collapse of a frame sequence to labels in its three codings,
  the exact number of frames a target needs, the training filter built on it, and scoring
  of the emitted frames.
  */
module Ctc {
  import opened Options

  // ------------------------------------------------------------ the collapse

  function LeadingRun(ids: seq<nat>): (n: nat)
    requires ids != []
    ensures 1 <= n <= |ids|
    ensures forall k :: 0 <= k < n ==> ids[k] == ids[0]
    ensures n < |ids| ==> ids[n] != ids[0]
  {
    if |ids| == 1 || ids[1] != ids[0] then 1 else 1 + LeadingRun(ids[1..])
  }

  /** One key per group of equal neighbours. */
  function GroupKeys(ids: seq<nat>): seq<nat>
    decreases |ids|
  {
    if ids == [] then [] else [ids[0]] + GroupKeys(ids[LeadingRun(ids)..])
  }

  function Without(ids: seq<nat>, blank: nat): seq<nat> {
    if ids == [] then [] else
    Without(ids[..|ids| - 1], blank) + (if ids[|ids| - 1] == blank then [] else [ids[|ids| - 1]])
  }

  /** The labels a frame sequence collapses to. */
  function Labels(ids: seq<nat>, blank: nat): seq<nat> {
    Without(GroupKeys(ids), blank)
  }

  /** Entries selected by a mask of the same length. */
  function Selected(ids: seq<nat>, mask: seq<bool>): seq<nat>
    requires |mask| == |ids|
  {
    if ids == [] then [] else
    Selected(ids[..|ids| - 1], mask[..|ids| - 1]) + (if mask[|ids| - 1] then [ids[|ids| - 1]] else [])
  }

  /** True at the first frame and wherever a frame differs from the one before; only
      defined for at least one frame. */
  function ChangeMask(ids: seq<nat>): (mask: seq<bool>)
    requires ids != []
    ensures |mask| == |ids|
  {
    [true] + seq(|ids| - 1, k requires 0 <= k < |ids| - 1 => ids[k + 1] != ids[k])
  }

  lemma LeadingRunIs(ids: seq<nat>, n: nat)
    requires 1 <= n <= |ids| && (forall k :: 0 <= k < n ==> ids[k] == ids[0]) && (n < |ids| ==> ids[n] != ids[0])
    ensures LeadingRun(ids) == n
  {
  }

  lemma FirstGroup(ids: seq<nat>, n: nat)
    requires 1 <= n <= |ids| && (forall k :: 0 <= k < n ==> ids[k] == ids[0]) && (n < |ids| ==> ids[n] != ids[0])
    ensures GroupKeys(ids) == [ids[0]] + GroupKeys(ids[n..])
  {
    LeadingRunIs(ids, n);
  }

  lemma EmptyGroups()
    ensures GroupKeys([]) == []
  {
  }

  lemma {:induction false} GroupKeysSnoc(ids: seq<nat>, x: nat)
    ensures GroupKeys(ids + [x]) == if ids != [] && ids[|ids| - 1] == x then GroupKeys(ids) else GroupKeys(ids) + [x]
    decreases |ids|
  {
    hide LeadingRun;
    hide GroupKeys;
    var more := ids + [x];
    EmptyGroups();
    if ids == [] {
      assert more[1..] == [];
      FirstGroup(more, 1);
    } else {
      var n := LeadingRun(ids);
      FirstGroup(ids, n);
      if n < |ids| {
        FirstGroup(more, n);
        assert more[n..] == ids[n..] + [x];
        GroupKeysSnoc(ids[n..], x);
      } else if x != ids[0] {
        FirstGroup(more, n);
        assert more[n..] == [] + [x] && ids[n..] == [];
        GroupKeysSnoc([], x);
      } else {
        FirstGroup(more, n + 1);
        assert more[n + 1..] == ids[n..];
      }
    }
  }

  lemma NoLabels(blank: nat)
    ensures Labels([], blank) == []
  {
  }

  lemma LabelsSnoc(ids: seq<nat>, x: nat, blank: nat)
    ensures Labels(ids + [x], blank) ==
            if x == blank || (ids != [] && ids[|ids| - 1] == x) then Labels(ids, blank) else Labels(ids, blank) + [x]
  {
    GroupKeysSnoc(ids, x);
    var keys := GroupKeys(ids);
    assert (keys + [x])[..|keys|] == keys;
  }

  /** The change mask selects the group keys, for every non-empty frame sequence. */
  lemma {:induction false} MaskIsGrouping(ids: seq<nat>)
    requires ids != []
    ensures Selected(ids, ChangeMask(ids)) == GroupKeys(ids)
    decreases |ids|
  {
    hide GroupKeys;
    var init, x := ids[..|ids| - 1], ids[|ids| - 1];
    assert ids == init + [x];
    GroupKeysSnoc(init, x);
    EmptyGroups();
    if init != [] {
      MaskIsGrouping(init);
      assert ChangeMask(ids)[..|ids| - 1] == ChangeMask(init);
      assert ChangeMask(ids)[|ids| - 1] == (init[|init| - 1] != x);
    } else {
      assert Selected([], ChangeMask(ids)[..0]) == [];
      assert ids == [x];
    }
  }

  // -------------------------------------------------------- how many frames suffice

  /** Number of equal neighbours. */
  function Repeats(target: seq<nat>): nat {
    if |target| < 2 then 0
    else Repeats(target[..|target| - 1]) + (if target[|target| - 1] == target[|target| - 2] then 1 else 0)
  }

  function MinimumFrames(target: seq<nat>): nat {
    |target| + Repeats(target)
  }

  lemma MinimumFramesSnoc(target: seq<nat>, x: nat)
    ensures MinimumFrames(target + [x]) ==
            MinimumFrames(target) + 1 + (if target != [] && target[|target| - 1] == x then 1 else 0)
  {
    assert (target + [x])[..|target|] == target;
  }

  /** No frame sequence is shorter than its labels require; one that ends in a blank has a
      frame to spare. */
  lemma {:induction false} FramesNeeded(ids: seq<nat>, blank: nat)
    ensures var labels := Labels(ids, blank);
            && blank !in labels
            && |ids| >= MinimumFrames(labels) + (if ids != [] && ids[|ids| - 1] == blank then 1 else 0)
            && (ids != [] && ids[|ids| - 1] != blank ==> labels != [] && labels[|labels| - 1] == ids[|ids| - 1])
    decreases |ids|
  {
    if ids != [] {
      var init, x := ids[..|ids| - 1], ids[|ids| - 1];
      assert ids == init + [x];
      FramesNeeded(init, blank);
      LabelsSnoc(init, x, blank);
      MinimumFramesSnoc(Labels(init, blank), x);
      assert init == [] ==> Labels(init, blank) == [];
    }
  }

  /** A shortest frame sequence: a blank between equal neighbours. */
  function Shortest(target: seq<nat>, blank: nat): seq<nat> {
    if target == [] then [] else
    var init, x := target[..|target| - 1], target[|target| - 1];
    Shortest(init, blank) + (if init != [] && init[|init| - 1] == x then [blank, x] else [x])
  }

  lemma {:induction false} ShortestCollapses(target: seq<nat>, blank: nat)
    requires blank !in target
    ensures var ids := Shortest(target, blank);
            && Labels(ids, blank) == target && |ids| == MinimumFrames(target)
            && (if target == [] then ids == [] else ids != [] && ids[|ids| - 1] == target[|target| - 1])
            && forall id :: id in ids ==> id == blank || id in target
    decreases |target|
  {
    if target != [] {
      var init, x := target[..|target| - 1], target[|target| - 1];
      assert target == init + [x];
      ShortestCollapses(init, blank);
      var ids := Shortest(init, blank);
      assert Shortest(target, blank) == ids + (if init != [] && init[|init| - 1] == x then [blank, x] else [x]);
      hide *;
      MinimumFramesSnoc(init, x);
      ExtendFrames(ids, init, x, blank);
    } else {
      EmptyGroups();
    }
  }

  /** One more label costs one frame, or two when it repeats the last one. */
  lemma ExtendFrames(ids: seq<nat>, labels: seq<nat>, x: nat, blank: nat)
    requires x != blank && Labels(ids, blank) == labels
    requires if labels == [] then ids == [] else ids != [] && ids[|ids| - 1] == labels[|labels| - 1]
    ensures Labels(ids + (if labels != [] && labels[|labels| - 1] == x then [blank, x] else [x]), blank) == labels + [x]
  {
    hide *;
    if labels != [] && labels[|labels| - 1] == x {
      LabelsSnoc(ids, blank, blank);
      LabelsSnoc(ids + [blank], x, blank);
      assert ids + [blank, x] == (ids + [blank]) + [x];
    } else {
      LabelsSnoc(ids, x, blank);
    }
  }

  function Blanks(n: nat, blank: nat): (s: seq<nat>)
    ensures |s| == n && forall id :: id in s ==> id == blank
  {
    if n == 0 then [] else Blanks(n - 1, blank) + [blank]
  }

  lemma {:induction false} PaddingIsSilent(ids: seq<nat>, n: nat, blank: nat)
    ensures Labels(ids + Blanks(n, blank), blank) == Labels(ids, blank)
  {
    if n == 0 {
      assert ids + [] == ids;
    } else {
      var k := n - 1;
      var padded := ids + Blanks(k, blank);
      assert ids + Blanks(n, blank) == padded + [blank];
      hide *;
      PaddingIsSilent(ids, k, blank);
      LabelsSnoc(padded, blank, blank);
    }
  }

  ghost predicate Reachable(target: seq<nat>, frames: nat, blank: nat) {
    exists ids: seq<nat> :: |ids| == frames && Labels(ids, blank) == target
  }

  /** Some frame sequence of the given length collapses to the target exactly when the
      target has no blank and its length plus its equal neighbours fit. */
  lemma FitsIffReachable(target: seq<nat>, frames: nat, blank: nat)
    ensures Reachable(target, frames, blank) <==> blank !in target && MinimumFrames(target) <= frames
  {
    if blank !in target && MinimumFrames(target) <= frames {
      ShortestCollapses(target, blank);
      var ids := Shortest(target, blank);
      PaddingIsSilent(ids, frames - |ids|, blank);
      assert |ids + Blanks(frames - |ids|, blank)| == frames;
    }
    if ids: seq<nat> :| |ids| == frames && Labels(ids, blank) == target {
      FramesNeeded(ids, blank);
    }
  }

  // ------------------------------------------------------------- training filter

  datatype Example = Example(id: string, text: string, frames: nat)
  datatype Reason = UnknownCharacters | CannotFit

  /** Index of a character; a later duplicate in the vocabulary wins. */
  function TokenOf(vocab: seq<char>, ch: char): (t: Option<nat>)
    ensures t.Some? <==> ch in vocab
    ensures t.Some? ==> t.value < |vocab| && vocab[t.value] == ch
  {
    if vocab == [] then None
    else if vocab[|vocab| - 1] == ch then Some(|vocab| - 1)
    else TokenOf(vocab[..|vocab| - 1], ch)
  }

  /** The token of a character is the last place it has in the vocabulary. */
  lemma {:induction false} TokenIsLast(vocab: seq<char>, ch: char, t: nat)
    ensures TokenOf(vocab, ch) == Some(t) <==>
            t < |vocab| && vocab[t] == ch && forall u :: t < u < |vocab| ==> vocab[u] != ch
  {
    if vocab != [] {
      var n := |vocab| - 1;
      if vocab[n] != ch { TokenIsLast(vocab[..n], ch, t); }
    }
  }

  ghost predicate KnownText(vocab: seq<char>, text: string) {
    forall ch :: ch in text ==> ch in vocab
  }

  function Spelled(vocab: seq<char>, target: seq<nat>): string
    requires forall t :: t in target ==> t < |vocab|
  {
    seq(|target|, k requires 0 <= k < |target| => assert target[k] in target; vocab[target[k]])
  }

  /** The token sequence of a text. */
  ghost predicate Tokenizes(vocab: seq<char>, text: string, target: seq<nat>) {
    && |target| == |text|
    && forall k :: 0 <= k < |text| ==> TokenOf(vocab, text[k]) == Some(target[k])
  }

  /** Some frame sequence of the example's length collapses to its token sequence; blanks
      are numbered just past the vocabulary. */
  ghost predicate TakenIn(vocab: seq<char>, e: Example, target: seq<nat>) {
    Tokenizes(vocab, e.text, target) && Reachable(target, e.frames, |vocab|)
  }

  ghost predicate Fits(vocab: seq<char>, e: Example) {
    exists target :: TakenIn(vocab, e, target)
  }

  /** Why an example is left out. */
  ghost predicate LeftOut(vocab: seq<char>, e: Example, reason: Reason) {
    match reason
    case UnknownCharacters => !KnownText(vocab, e.text)
    case CannotFit => KnownText(vocab, e.text) && !Fits(vocab, e)
  }

  /** The rows that fit, or those that do not, in order. */
  ghost function RowsWhich(vocab: seq<char>, rows: seq<Example>, fit: bool): seq<Example> {
    if rows == [] then [] else
    RowsWhich(vocab, rows[..|rows| - 1], fit) +
      (if Fits(vocab, rows[|rows| - 1]) == fit then [rows[|rows| - 1]] else [])
  }

  function EqualNeighbours(text: string): nat {
    if |text| < 2 then 0
    else EqualNeighbours(text[..|text| - 1]) + (if text[|text| - 1] == text[|text| - 2] then 1 else 0)
  }

  /** Counting equal neighbours on characters or on tokens is the same. */
  lemma {:induction false} NeighboursAgree(vocab: seq<char>, text: string, target: seq<nat>)
    requires Tokenizes(vocab, text, target)
    ensures Repeats(target) == EqualNeighbours(text)
    decreases |text|
  {
    if |text| >= 2 {
      var n := |text| - 1;
      NeighboursAgree(vocab, text[..n], target[..n]);
      assert TokenOf(vocab, text[n]) == Some(target[n]) && TokenOf(vocab, text[n - 1]) == Some(target[n - 1]);
    }
  }

  lemma SameTokens(vocab: seq<char>, text: string, x: seq<nat>, y: seq<nat>)
    requires Tokenizes(vocab, text, x) && Tokenizes(vocab, text, y)
    ensures x == y
  {
    forall k | 0 <= k < |text| ensures x[k] == y[k] {
      assert TokenOf(vocab, text[k]) == Some(x[k]);
      assert TokenOf(vocab, text[k]) == Some(y[k]);
    }
  }

  lemma TokensBelowBlank(vocab: seq<char>, text: string, target: seq<nat>)
    requires Tokenizes(vocab, text, target)
    ensures forall t :: t in target ==> t < |vocab|
    ensures forall k :: 0 <= k < |text| ==> vocab[target[k]] == text[k]
  {
    forall k | 0 <= k < |target| ensures target[k] < |vocab| && vocab[target[k]] == text[k] {
      assert TokenOf(vocab, text[k]) == Some(target[k]);
    }
  }

  /** The filter's arithmetic decides whether the example fits. */
  lemma TokensFit(vocab: seq<char>, e: Example, target: seq<nat>)
    requires Tokenizes(vocab, e.text, target)
    ensures Fits(vocab, e) <==> |target| + EqualNeighbours(e.text) <= e.frames
    ensures TakenIn(vocab, e, target) <==> Fits(vocab, e)
  {
    NeighboursAgree(vocab, e.text, target);
    FitsIffReachable(target, e.frames, |vocab|);
    TokensBelowBlank(vocab, e.text, target);
    if t :| TakenIn(vocab, e, t) {
      SameTokens(vocab, e.text, t, target);
    }
    assert TakenIn(vocab, e, target) <==> |target| + EqualNeighbours(e.text) <= e.frames;
  }

  lemma FitsIsKnown(vocab: seq<char>, e: Example)
    requires Fits(vocab, e)
    ensures KnownText(vocab, e.text)
  {
    var target :| TakenIn(vocab, e, target);
    forall ch | ch in e.text ensures ch in vocab {
      var k :| 0 <= k < |e.text| && e.text[k] == ch;
      assert TokenOf(vocab, e.text[k]) == Some(target[k]);
    }
  }

  method Tokenize(vocab: seq<char>, text: string) returns (target: Option<seq<nat>>)
    ensures target.Some? <==> KnownText(vocab, text)
    ensures target.Some? ==> Tokenizes(vocab, text, target.value)
  {
    var tokens: seq<nat> := [];
    for i := 0 to |text|
      invariant Tokenizes(vocab, text[..i], tokens)
    {
      var token := TokenOf(vocab, text[i]);
      if token.None? {
        return None;
      }
      tokens := tokens + [token.value];
    }
    assert text[..|text|] == text;
    forall ch | ch in text ensures ch in vocab {
      var k :| 0 <= k < |text| && text[k] == ch;
      assert TokenOf(vocab, text[k]).Some?;
    }
    target := Some(tokens);
  }

  /** Split the training rows, each part in input order: a row is kept, with its tokens, if
      some frame sequence of its length collapses to them, and excluded otherwise. */
  method SelectTraining(rows: seq<Example>, vocab: seq<char>)
    returns (eligible: seq<(Example, seq<nat>)>, excluded: seq<(Example, Reason)>)
    ensures Firsts(eligible) == RowsWhich(vocab, rows, true)
    ensures Firsts(excluded) == RowsWhich(vocab, rows, false)
    ensures forall k :: 0 <= k < |eligible| ==> TakenIn(vocab, eligible[k].0, eligible[k].1)
    ensures forall k :: 0 <= k < |excluded| ==> LeftOut(vocab, excluded[k].0, excluded[k].1)
  {
    hide TakenIn;
    hide Tokenizes;
    hide Fits;
    eligible, excluded := [], [];
    for k := 0 to |rows|
      invariant Firsts(eligible) == RowsWhich(vocab, rows[..k], true)
      invariant Firsts(excluded) == RowsWhich(vocab, rows[..k], false)
      invariant forall i :: 0 <= i < |eligible| ==> TakenIn(vocab, eligible[i].0, eligible[i].1)
      invariant forall i :: 0 <= i < |excluded| ==> LeftOut(vocab, excluded[i].0, excluded[i].1)
    {
      var row := rows[k];
      assert rows[..k + 1][..k] == rows[..k];
      var tokens := Tokenize(vocab, row.text);
      if tokens.None? {
        if Fits(vocab, row) { FitsIsKnown(vocab, row); }
        FirstsSnoc(excluded, (row, UnknownCharacters));
        excluded := excluded + [(row, UnknownCharacters)];
      } else {
        var target := tokens.value;
        TokensFit(vocab, row, target);
        if |target| + EqualNeighbours(row.text) > row.frames {
          FirstsSnoc(excluded, (row, CannotFit));
          excluded := excluded + [(row, CannotFit)];
        } else {
          FirstsSnoc(eligible, (row, target));
          eligible := eligible + [(row, target)];
        }
      }
    }
    assert rows[..|rows|] == rows;
  }

  function Firsts<A, B>(s: seq<(A, B)>): seq<A> {
    seq(|s|, k requires 0 <= k < |s| => s[k].0)
  }

  lemma FirstsSnoc<A, B>(s: seq<(A, B)>, x: (A, B))
    ensures Firsts(s + [x]) == Firsts(s) + [x.0]
  {
  }

  /** Text some frames of a given length decode to. */
  ghost predicate Decodable(vocab: seq<char>, text: string, frames: nat) {
    exists ids: seq<nat> :: |ids| == frames && DecodesTo(vocab, ids, text)
  }

  ghost predicate DecodesTo(vocab: seq<char>, ids: seq<nat>, text: string) {
    (forall id :: id in Labels(ids, |vocab|) ==> id < |vocab|) && Spelled(vocab, Labels(ids, |vocab|)) == text
  }

  /** What the filter keeps can be decoded from that many frames; over a vocabulary without
      duplicates it keeps everything that can. */
  lemma FilterIsExact(vocab: seq<char>, e: Example)
    ensures Fits(vocab, e) ==> Decodable(vocab, e.text, e.frames)
    ensures (forall i, j :: 0 <= i < j < |vocab| ==> vocab[i] != vocab[j]) ==>
              (Decodable(vocab, e.text, e.frames) <==> Fits(vocab, e))
  {
    if target :| TakenIn(vocab, e, target) {
      TokensBelowBlank(vocab, e.text, target);
      var ids: seq<nat> :| |ids| == e.frames && Labels(ids, |vocab|) == target;
      assert Spelled(vocab, target) == e.text;
      assert DecodesTo(vocab, ids, e.text);
    }
    if forall i, j :: 0 <= i < j < |vocab| ==> vocab[i] != vocab[j] {
      if ids: seq<nat> :| |ids| == e.frames && DecodesTo(vocab, ids, e.text) {
        var target := Labels(ids, |vocab|);
        forall k | 0 <= k < |e.text| ensures TokenOf(vocab, e.text[k]) == Some(target[k]) {
          assert e.text[k] == Spelled(vocab, target)[k];
          assert target[k] in target;
          assert vocab[target[k]] == e.text[k];
          var t := TokenOf(vocab, e.text[k]).value;
          assert vocab[t] == vocab[target[k]];
        }
        assert TakenIn(vocab, e, target);
      }
    }
  }

  lemma TwoLabels(p: nat, q: nat, blank: nat)
    requires p != q && p != blank && q != blank
    ensures Labels([p, q], blank) == [p, q]
  {
    LabelsSnoc([], p, blank);
    LabelsSnoc([p], q, blank);
    EmptyGroups();
    assert [p, q] == [p] + [q] && [p] == [] + [p];
    assert Labels([], blank) == [];
  }

  /** A repeated vocabulary entry lets two frames decode to a text that the filter drops. */
  lemma DuplicateEntryDefeatsFilter(vocab: seq<char>, p: nat, q: nat)
    requires p < q < |vocab| && vocab[p] == vocab[q]
    ensures var e := Example("x", [vocab[p], vocab[p]], 2);
            Decodable(vocab, e.text, e.frames) && !Fits(vocab, e)
  {
    var c := vocab[p];
    var e := Example("x", [c, c], 2);
    TwoLabels(p, q, |vocab|);
    assert Spelled(vocab, [p, q]) == [c, c];
    assert DecodesTo(vocab, [p, q], e.text);
    assert c in vocab;
    hide Labels, Decodable;
    var last := TokenOf(vocab, c).value;
    var target: seq<nat> := [last, last];
    assert Tokenizes(vocab, e.text, target);
    assert EqualNeighbours([c, c]) == 1;
    TokensFit(vocab, e, target);
  }

  /** The filter keeps exactly the decodable texts, for all texts and frame counts, if and
      only if no vocabulary entry is repeated. */
  lemma FilterExactIffDistinct(vocab: seq<char>)
    ensures (forall e: Example :: Decodable(vocab, e.text, e.frames) <==> Fits(vocab, e)) <==>
              (forall i, j :: 0 <= i < j < |vocab| ==> vocab[i] != vocab[j])
  {
    if i, j :| 0 <= i < j < |vocab| && vocab[i] == vocab[j] {
      DuplicateEntryDefeatsFilter(vocab, i, j);
    } else {
      forall e: Example ensures Decodable(vocab, e.text, e.frames) <==> Fits(vocab, e) { FilterIsExact(vocab, e); }
    }
  }

  // --------------------------------------------------------------- scoring frames

  /** The greedy decoder's inputs, all uninterpreted: the best class of a row, its
      confidence, and an addition of which nothing is assumed. */
  datatype Scorer<!V, !S> = Scorer(argmax: seq<V> -> nat, confidence: (seq<V>, nat) -> S, add: (S, S) -> S, zero: S)

  function Classes<V, S>(scorer: Scorer<V, S>, rows: seq<seq<V>>): seq<nat> {
    seq<nat>(|rows|, k requires 0 <= k < |rows| => scorer.argmax(rows[k]))
  }

  /** A row emits a label unless its class is the last one, or repeats the previous row's. */
  predicate Emits<V, S>(scorer: Scorer<V, S>, rows: seq<seq<V>>, ctc: bool, k: nat)
    requires k < |rows|
  {
    && scorer.argmax(rows[k]) != |rows[k]| - 1
    && !(ctc && k > 0 && scorer.argmax(rows[k - 1]) == scorer.argmax(rows[k]))
  }

  /** One pass: add the confidences of the emitting rows, left to right. */
  function Pass<V, S>(scorer: Scorer<V, S>, rows: seq<seq<V>>, ctc: bool, k: nat, sum: S): S
    requires k <= |rows|
  {
    if k == 0 then sum
    else if Emits(scorer, rows, ctc, k - 1) then
      scorer.add(Pass(scorer, rows, ctc, k - 1, sum), scorer.confidence(rows[k - 1], scorer.argmax(rows[k - 1])))
    else Pass(scorer, rows, ctc, k - 1, sum)
  }

  function Passes<V, S>(scorer: Scorer<V, S>, rows: seq<seq<V>>, ctc: bool, n: nat): S {
    if n == 0 then scorer.zero else Pass(scorer, rows, ctc, |rows|, Passes(scorer, rows, ctc, n - 1))
  }

  /** A hundred passes with a confidence computed for every row, or only for emitted ones:
      the result does not depend on which. */
  method ScoreFrames<V, S>(scorer: Scorer<V, S>, rows: seq<seq<V>>, deferred: bool, ctc: bool) returns (sum: S)
    ensures sum == Passes(scorer, rows, ctc, 100)
  {
    sum := scorer.zero;
    for pass := 0 to 100
      invariant sum == Passes(scorer, rows, ctc, pass)
    {
      var prev: Option<nat> := None;
      for k := 0 to |rows|
        invariant prev == if k == 0 then None else Some(scorer.argmax(rows[k - 1]))
        invariant sum == Pass(scorer, rows, ctc, k, Passes(scorer, rows, ctc, pass))
      {
        var row := rows[k];
        var token := scorer.argmax(row);
        var score := if deferred then scorer.zero else scorer.confidence(row, token);
        var repeat := prev == Some(token);
        prev := Some(token);
        if !(token == |row| - 1 || (ctc && repeat)) {
          sum := scorer.add(sum, if deferred then scorer.confidence(row, token) else score);
        }
      }
    }
  }

  /** Classes of the emitting rows. */
  function Emitted<V, S>(scorer: Scorer<V, S>, rows: seq<seq<V>>, ctc: bool, k: nat): seq<nat>
    requires k <= |rows|
  {
    if k == 0 then [] else
    Emitted(scorer, rows, ctc, k - 1) + (if Emits(scorer, rows, ctc, k - 1) then [scorer.argmax(rows[k - 1])] else [])
  }

  /** Left to right, add up what the list holds. */
  function Folded<S>(add: (S, S) -> S, sum: S, terms: seq<S>): S {
    if terms == [] then sum else add(Folded(add, sum, terms[..|terms| - 1]), terms[|terms| - 1])
  }

  /** The best class of row `k` is not the row's last and, if repeats are skipped, not the best
      class of the row before. */
  ghost predicate Counts<V, S>(scorer: Scorer<V, S>, rows: seq<seq<V>>, ctc: bool, k: nat) {
    && k < |rows| && scorer.argmax(rows[k]) + 1 != |rows[k]|
    && (ctc && k > 0 ==> scorer.argmax(rows[k - 1]) != scorer.argmax(rows[k]))
  }

  /** `picks` are those of the first `n` rows, in order. */
  ghost predicate Scored<V, S>(scorer: Scorer<V, S>, rows: seq<seq<V>>, ctc: bool, n: nat, picks: seq<nat>) {
    && (forall i, j :: 0 <= i < j < |picks| ==> picks[i] < picks[j])
    && (forall k: nat :: k in picks <==> k < n && Counts(scorer, rows, ctc, k))
  }

  function Confidence<V, S>(scorer: Scorer<V, S>, rows: seq<seq<V>>, k: nat): S {
    if k < |rows| then scorer.confidence(rows[k], scorer.argmax(rows[k])) else scorer.zero
  }

  function Confidences<V, S>(scorer: Scorer<V, S>, rows: seq<seq<V>>, picks: seq<nat>): (terms: seq<S>)
    ensures |terms| == |picks| && forall i :: 0 <= i < |terms| ==> terms[i] == Confidence(scorer, rows, picks[i])
  {
    seq<S>(|picks|, i requires 0 <= i < |picks| => Confidence(scorer, rows, picks[i]))
  }

  /** A pass adds to the running sum the confidence of the best class of each such row, once
      and in order. */
  lemma {:induction false} PassAddsUp<V, S>(scorer: Scorer<V, S>, rows: seq<seq<V>>, ctc: bool, n: nat, sum: S)
    returns (picks: seq<nat>)
    requires n <= |rows|
    ensures Scored(scorer, rows, ctc, n, picks)
    ensures Pass(scorer, rows, ctc, n, sum) == Folded(scorer.add, sum, Confidences(scorer, rows, picks))
  {
    picks := [];
    if n > 0 {
      var k := n - 1;
      var before := PassAddsUp(scorer, rows, ctc, k, sum);
      PassStep(scorer, rows, ctc, k, sum);
      ScoredOneMore(scorer, rows, ctc, k, before);
      FoldedOneMore(scorer, rows, before, k, sum);
      hide *;
      picks := if Emits(scorer, rows, ctc, k) then before + [k] else before;
    }
  }

  lemma PassStep<V, S>(scorer: Scorer<V, S>, rows: seq<seq<V>>, ctc: bool, k: nat, sum: S)
    requires k < |rows|
    ensures var before := Pass(scorer, rows, ctc, k, sum);
            Pass(scorer, rows, ctc, k + 1, sum) ==
              if Emits(scorer, rows, ctc, k) then scorer.add(before, scorer.confidence(rows[k], scorer.argmax(rows[k])))
              else before
  {
  }

  lemma ScoredOneMore<V, S>(scorer: Scorer<V, S>, rows: seq<seq<V>>, ctc: bool, n: nat, picks: seq<nat>)
    requires n < |rows| && Scored(scorer, rows, ctc, n, picks)
    ensures Scored(scorer, rows, ctc, n + 1, if Emits(scorer, rows, ctc, n) then picks + [n] else picks)
  {
    var emits := Emits(scorer, rows, ctc, n);
    assert emits <==> Counts(scorer, rows, ctc, n);
    hide Emits, Counts;
    var more := if emits then picks + [n] else picks;
    forall k: nat ensures k in more <==> k < n + 1 && Counts(scorer, rows, ctc, k) {
      assert k in more <==> k in picks || (emits && k == n);
    }
    forall i, j | 0 <= i < j < |more| ensures more[i] < more[j] {
      assert i < |picks| && more[i] == picks[i] && picks[i] in picks;
    }
  }

  lemma FoldedOneMore<V, S>(scorer: Scorer<V, S>, rows: seq<seq<V>>, picks: seq<nat>, k: nat, sum: S)
    requires k < |rows|
    ensures Folded(scorer.add, sum, Confidences(scorer, rows, picks + [k])) ==
            scorer.add(Folded(scorer.add, sum, Confidences(scorer, rows, picks)),
                       scorer.confidence(rows[k], scorer.argmax(rows[k])))
  {
    var terms := Confidences(scorer, rows, picks + [k]);
    assert terms[..|terms| - 1] == Confidences(scorer, rows, picks);
  }

  /** With repeats skipped and rows of one width, the rows scored are those of the
      collapse: the blank is the last class. */
  lemma {:induction false} EmittedAreLabels<V, S>(scorer: Scorer<V, S>, rows: seq<seq<V>>, width: nat, k: nat)
    requires k <= |rows| && width > 0 && forall i :: 0 <= i < |rows| ==> |rows[i]| == width
    ensures Emitted(scorer, rows, true, k) == Labels(Classes(scorer, rows)[..k], width - 1)
  {
    if k > 0 {
      EmittedAreLabels(scorer, rows, width, k - 1);
      var ids := Classes(scorer, rows);
      assert ids[..k] == ids[..k - 1] + [ids[k - 1]];
      LabelsSnoc(ids[..k - 1], ids[k - 1], width - 1);
    }
  }
}
