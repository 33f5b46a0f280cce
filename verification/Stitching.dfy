/** Overlapping 24-second windows every 22 seconds: which samples they cover, where the seam
  between two windows is put, and which window each word of the stitched text comes from.
  */
module Stitching {

  const RATE := 16000
  const STRIDE := 22 * RATE
  const LENGTH := 24 * RATE

  // --------------------------------------------------------------------- windows

  /** Samples `start..end` of the recording. */
  datatype Window = Window(start: nat, end: nat)

  ghost predicate Covered(windows: seq<Window>, i: nat) {
    exists k :: 0 <= k < |windows| && windows[k].start <= i < windows[k].end
  }

  /** Windows in stride order, each cut at the end of the data, stopping at the first one
      that reaches it. */
  method Windows(samples: nat) returns (windows: seq<Window>)
    ensures samples == 0 <==> windows == []
    ensures forall k :: 0 <= k < |windows| ==>
              windows[k].start == k * 352000 && windows[k].start < windows[k].end <= windows[k].start + 384000
    ensures forall k :: 0 <= k < |windows| - 1 ==> windows[k].end == windows[k].start + 384000 < samples
    ensures windows != [] ==> windows[|windows| - 1].end == samples
    ensures forall i :: 0 <= i < samples ==> Covered(windows, i)
  {
    windows := [];
    var start := 0;
    while start < samples
      invariant start == |windows| * STRIDE
      invariant |windows| > 0 ==> start < samples
      invariant forall k :: 0 <= k < |windows| ==>
                  windows[k].start == k * STRIDE && windows[k].end == windows[k].start + LENGTH < samples
      invariant forall i :: 0 <= i < start && i < samples ==> Covered(windows, i)
      decreases samples - start
    {
      var end := if start + LENGTH <= samples then start + LENGTH else samples;
      ghost var before := windows;
      windows := windows + [Window(start, end)];
      forall i | 0 <= i < end ensures Covered(windows, i) {
        if i < start {
          assert Covered(before, i);
          var k :| 0 <= k < |before| && before[k].start <= i < before[k].end;
          assert windows[k] == before[k];
        } else {
          assert windows[|before|].start <= i < windows[|before|].end;
        }
      }
      if end >= samples {
        return;
      }
      start := start + STRIDE;
    }
  }

  // ----------------------------------------------------------------------- seams

  const REGION := 1600
  const FIRST := 4000
  const STEP := 320

  function Energy(audio: seq<int>, i: nat, n: nat): nat
    requires i + n <= |audio|
  {
    if n == 0 then 0 else Energy(audio, i, n - 1) + audio[i + n - 1] * audio[i + n - 1]
  }

  /** A candidate region starts at `i`; its rank is mean square, distance of its centre from
      one second, position. Energies are compared as sums over equally many samples. */
  datatype Candidate = Candidate(energy: nat, i: nat) {
    function Distance(): nat { if i + 800 >= RATE then i + 800 - RATE else RATE - i - 800 }

    predicate Before(c: Candidate) {
      || energy < c.energy
      || (energy == c.energy && (Distance() < c.Distance() || (Distance() == c.Distance() && i <= c.i)))
    }
  }

  predicate IsStart(audio: seq<int>, i: int) {
    FIRST <= i && (i - FIRST) % STEP == 0 && i + 5600 <= (if |audio| < 2 * RATE then |audio| else 2 * RATE)
  }

  /** Quiet enough: mean square at most (327.68)^2. */
  predicate IsQuiet(energy: nat) {
    energy as real / 1600.0 <= 327.68 * 327.68
  }

  /** Seconds from the start of the window to the centre of a region. */
  function Centre(i: nat): real {
    (i + 800) as real / 16000.0
  }

  /** `c` is the first-ranked region of the overlap. */
  ghost predicate Quietest(audio: seq<int>, c: Candidate) {
    && IsStart(audio, c.i) && c.energy == Energy(audio, c.i, REGION)
    && forall i: nat :: IsStart(audio, i) ==> c.Before(Candidate(Energy(audio, i, REGION), i))
  }

  /** A place for a region of 1600 samples: on a grid of 320 from sample 4000 on, and 4000 samples
      or more before the end of the overlap of two seconds. */
  ghost predicate Admissible(audio: seq<int>, i: int) {
    4000 <= i && (i - 4000) % 320 == 0 && i + 5600 <= |audio| && i + 5600 <= 32000
  }

  /** Samples between the centre of the region at `i` and the one-second mark. */
  function OffCentre(i: int): int {
    if i + 800 >= 16000 then i + 800 - 16000 else 16000 - (i + 800)
  }

  /** `i` is the best place: no region has less energy, none of the same energy is nearer to
      one second, and none of the same energy as near comes earlier. */
  ghost predicate BestPlace(audio: seq<int>, i: int) {
    && Admissible(audio, i)
    && forall j :: Admissible(audio, j) ==>
         var e, f := Energy(audio, i, 1600), Energy(audio, j, 1600);
         && e <= f
         && (e == f ==> OffCentre(i) <= OffCentre(j) && (OffCentre(i) == OffCentre(j) ==> i <= j))
  }

  /** Where the seam goes: the centre of the quietest region if it is quiet enough, else the
      midpoint of the overlap. */
  method ChooseSeam(audio: seq<int>) returns (offset: real)
    ensures 0.3 <= offset <= 1.7
    ensures (exists c :: Quietest(audio, c) && IsQuiet(c.energy) && offset == Centre(c.i)) ||
            (offset == 1.0 && forall c :: Quietest(audio, c) ==> !IsQuiet(c.energy))
    ensures forall i :: BestPlace(audio, i) ==>
              offset == if Energy(audio, i, 1600) as real / 1600.0 <= 327.68 * 327.68
                        then (i + 800) as real / 16000.0 else 1.0
    ensures (exists i :: Admissible(audio, i)) ==> exists i :: BestPlace(audio, i)
    ensures (forall i :: !Admissible(audio, i)) ==> offset == 1.0
  {
    var stop := (if |audio| < 2 * RATE then |audio| else 2 * RATE) - 5600 + 1;
    var i, found, best := FIRST, false, Candidate(0, 0);
    while i < stop
      invariant FIRST <= i && (i - FIRST) % STEP == 0
      invariant found <==> i > FIRST
      invariant found ==> IsStart(audio, best.i) && best.energy == Energy(audio, best.i, REGION)
      invariant found ==> forall k: nat :: IsStart(audio, k) && k < i ==>
                best.Before(Candidate(Energy(audio, k, REGION), k))
      decreases stop - i
    {
      var energy := 0;
      for n := 0 to REGION
        invariant energy == Energy(audio, i, n)
      {
        energy := energy + audio[i + n] * audio[i + n];
      }
      assert IsStart(audio, i);
      forall k: nat | IsStart(audio, k) && k < i + STEP ensures k <= i { StartsApart(k, i); }
      var c := Candidate(energy, i);
      if !found || !best.Before(c) {
        found, best := true, c;
      }
      i := i + STEP;
    }
    if found {
      assert Quietest(audio, best);
      OnlyQuietest(audio, best);
      QuietestIsBest(audio, best);
    } else {
      forall k: nat | IsStart(audio, k) ensures false { }
      NoPlace(audio);
    }
    hide BestPlace, Admissible, Energy, Quietest;
    offset := if found && IsQuiet(best.energy) then Centre(best.i) else 1.0;
  }

  lemma OnlyQuietest(audio: seq<int>, best: Candidate)
    requires Quietest(audio, best)
    ensures forall c :: Quietest(audio, c) ==> c == best
  {
    hide Energy;
    forall c | Quietest(audio, c) ensures c == best {
      assert c.Before(best) && best.Before(c);
    }
  }

  lemma NoPlace(audio: seq<int>)
    requires forall k: nat :: !IsStart(audio, k)
    ensures forall i :: !Admissible(audio, i)
    ensures forall c :: !Quietest(audio, c)
  {
    forall i ensures !Admissible(audio, i) {
      if i >= 0 { assert !IsStart(audio, i); }
    }
  }

  /** The first-ranked region is the one best place. */
  lemma QuietestIsBest(audio: seq<int>, c: Candidate)
    requires Quietest(audio, c)
    ensures BestPlace(audio, c.i) && c.energy == Energy(audio, c.i, 1600)
    ensures forall i :: BestPlace(audio, i) ==> i == c.i
  {
    hide Energy;
    assert Admissible(audio, c.i);
    forall j | Admissible(audio, j)
      ensures var e, f := Energy(audio, c.i, 1600), Energy(audio, j, 1600);
              && e <= f
              && (e == f ==> OffCentre(c.i) <= OffCentre(j) && (OffCentre(c.i) == OffCentre(j) ==> c.i <= j))
    {
      assert IsStart(audio, j);
      assert c.Before(Candidate(Energy(audio, j, REGION), j));
    }
    forall i | BestPlace(audio, i) ensures i == c.i {
      assert Admissible(audio, i);
    }
  }

  lemma StartsApart(k: int, i: int)
    requires (k - FIRST) % STEP == 0 && (i - FIRST) % STEP == 0 && k < i + STEP
    ensures k <= i
  {
  }

  /** The seam of window `k` in seconds from the start of the recording. */
  function Seam(k: nat, offset: real): real {
    (k * 22) as real + offset
  }

  /** In samples: the seam lies in the two seconds that window `k` shares with the one before,
      at the offset from where the window starts. */
  lemma SeamInOverlap(k: nat, offset: real)
    requires 0.3 <= offset <= 1.7
    ensures Seam(k, offset) * 16000.0 == (k * 352000) as real + offset * 16000.0
    ensures k > 0 ==> (k * 352000) as real < Seam(k, offset) * 16000.0 < ((k - 1) * 352000 + 384000) as real
  {
  }

  function Seams(offsets: seq<real>): (seams: seq<real>)
    ensures |seams| == |offsets| && forall k :: 0 <= k < |seams| ==> seams[k] == Seam(k, offsets[k])
  {
    seq(|offsets|, k requires 0 <= k < |offsets| => Seam(k, offsets[k]))
  }

  ghost predicate Increasing(seams: seq<real>) {
    forall i, j :: 0 <= i < j < |seams| ==> seams[i] < seams[j]
  }

  /** Seams strictly increase, whichever rule chose each offset. */
  lemma SeamsIncrease(offsets: seq<real>)
    requires forall k :: 0 <= k < |offsets| ==> 0.3 <= offsets[k] <= 1.7
    ensures Increasing(Seams(offsets))
  {
    forall i, j | 0 <= i < j < |offsets| ensures Seam(i, offsets[i]) < Seam(j, offsets[j]) {
      assert (j * 22) as real >= (i * 22) as real + 22.0;
    }
  }

  // ------------------------------------------------------------------- stitching

  datatype Word = Word(text: string, start: real, end: real)

  function Upto(words: seq<Word>, boundary: real): seq<Word> {
    if words == [] then [] else
    Upto(words[..|words| - 1], boundary) + (if words[|words| - 1].start <= boundary then [words[|words| - 1]] else [])
  }

  function After(words: seq<Word>, boundary: real): seq<Word> {
    if words == [] then [] else
    After(words[..|words| - 1], boundary) + (if words[|words| - 1].start > boundary then [words[|words| - 1]] else [])
  }

  function MergeWords(previous: seq<Word>, words: seq<Word>, boundary: real): seq<Word> {
    if previous == [] then words else Upto(previous, boundary) + After(words, boundary)
  }

  /** Everything kept after window `k - 1`. */
  function Kept(windows: seq<seq<Word>>, seams: seq<real>, k: nat): seq<Word>
    requires k <= |windows| == |seams|
  {
    if k == 0 then [] else MergeWords(Kept(windows, seams, k - 1), windows[k - 1], seams[k - 1])
  }

  method Stitch(windows: seq<seq<Word>>, seams: seq<real>) returns (words: seq<Word>)
    requires |windows| == |seams|
    ensures words == Kept(windows, seams, |windows|)
  {
    words := [];
    for k := 0 to |windows|
      invariant words == Kept(windows, seams, k)
    {
      if words == [] {
        words := windows[k];
      } else {
        words := Upto(words, seams[k]) + After(windows[k], seams[k]);
      }
    }
  }

  /** What window `k` adds when it arrives: its words after its own seam, or all of them if
      nothing had been kept. */
  function Newest(windows: seq<seq<Word>>, seams: seq<real>, k: nat): seq<Word>
    requires k < |windows| == |seams|
  {
    if Kept(windows, seams, k) == [] then windows[k] else After(windows[k], seams[k])
  }

  /** The part of window `k` that survives later seams: after its own seam, unless nothing
      had been kept when it arrived, and up to the next seam. */
  function Owned(windows: seq<seq<Word>>, seams: seq<real>, k: nat): seq<Word>
    requires k < |windows| == |seams|
  {
    var words := Newest(windows, seams, k);
    if k + 1 < |windows| then Upto(words, seams[k + 1]) else words
  }

  function AllOwned(windows: seq<seq<Word>>, seams: seq<real>, k: nat): seq<Word>
    requires k <= |windows| == |seams|
  {
    if k == 0 then [] else AllOwned(windows, seams, k - 1) + Owned(windows, seams, k - 1)
  }

  lemma {:induction false} UptoAppend(x: seq<Word>, y: seq<Word>, b: real)
    ensures Upto(x + y, b) == Upto(x, b) + Upto(y, b)
    decreases |y|
  {
    if y == [] {
      assert x + y == x;
    } else {
      assert (x + y)[..|x + y| - 1] == x + y[..|y| - 1];
      UptoAppend(x, y[..|y| - 1], b);
    }
  }

  /** `picks` are the positions of the words that start after `b`, or of the others, in order;
      `result` are the words there. */
  ghost predicate Picks(words: seq<Word>, b: real, later: bool, picks: seq<nat>, result: seq<Word>) {
    && |result| == |picks| && (forall k :: 0 <= k < |picks| ==> picks[k] < |words| && result[k] == words[picks[k]])
    && (forall i, j :: 0 <= i < j < |picks| ==> picks[i] < picks[j])
    && forall p :: 0 <= p < |words| ==> (p in picks <==> (words[p].start > b) == later)
  }

  lemma PickOne(words: seq<Word>, b: real, later: bool, picks: seq<nat>, result: seq<Word>, w: Word)
    requires Picks(words, b, later, picks, result)
    ensures if (w.start > b) == later then Picks(words + [w], b, later, picks + [|words|], result + [w])
            else Picks(words + [w], b, later, picks, result)
  {
    var more, all := words + [w], picks + [|words|];
    assert more[|words|] == w && forall p :: 0 <= p < |words| ==> more[p] == words[p];
    assert forall p :: p in all <==> p in picks || p == |words|;
  }

  /** A merge keeps the earlier words that start up to the seam and takes the later ones that
      start after it, each in order and none twice. */
  lemma {:induction false} SelectionPicks(words: seq<Word>, b: real) returns (upto: seq<nat>, after: seq<nat>)
    ensures Picks(words, b, false, upto, Upto(words, b))
    ensures Picks(words, b, true, after, After(words, b))
    decreases |words|
  {
    upto, after := [], [];
    if words != [] {
      var init, last := words[..|words| - 1], words[|words| - 1];
      upto, after := SelectionPicks(init, b);
      PickOne(init, b, false, upto, Upto(init, b), last);
      PickOne(init, b, true, after, After(init, b), last);
      assert words == init + [last];
      hide Picks;
      if last.start <= b { upto := upto + [|init|]; } else { after := after + [|init|]; }
      assert Upto(init, b) + [] == Upto(init, b) && After(init, b) + [] == After(init, b);
    }
  }

  lemma {:induction false} InUpto(words: seq<Word>, b: real, w: Word)
    ensures w in Upto(words, b) <==> w in words && w.start <= b
    ensures w in After(words, b) <==> w in words && w.start > b
    decreases |words|
  {
    if words != [] {
      var init, last := words[..|words| - 1], words[|words| - 1];
      assert words == init + [last];
      InUpto(init, b, w);
    }
  }

  lemma KeptStep(windows: seq<seq<Word>>, seams: seq<real>, k: nat)
    requires k < |windows| == |seams|
    ensures Kept(windows, seams, 0) == [] && AllOwned(windows, seams, 0) == []
    ensures Kept(windows, seams, k + 1) == Upto(Kept(windows, seams, k), seams[k]) + Newest(windows, seams, k)
    ensures k == 0 ==> Kept(windows, seams, 1) == Newest(windows, seams, 0)
    ensures AllOwned(windows, seams, k + 1) == AllOwned(windows, seams, k) + Owned(windows, seams, k)
    ensures Owned(windows, seams, k) ==
            if k + 1 < |windows| then Upto(Newest(windows, seams, k), seams[k + 1]) else Newest(windows, seams, k)
  {
  }

  /** Before the last window is cut: what is kept is owned by earlier windows, then the newest
      window's words. */
  lemma {:induction false} KeptIsOwned(windows: seq<seq<Word>>, seams: seq<real>, k: nat)
    requires k < |windows| == |seams| && Increasing(seams)
    ensures Kept(windows, seams, k + 1) == AllOwned(windows, seams, k) + Newest(windows, seams, k)
    ensures forall w :: w in AllOwned(windows, seams, k) ==> w.start <= seams[k]
  {
    hide *;
    KeptStep(windows, seams, k);
    if k > 0 {
      var j := k - 1;
      KeptIsOwned(windows, seams, j);
      KeptStep(windows, seams, j);
      SeamBefore(seams, j);
      var older, newest := AllOwned(windows, seams, j), Newest(windows, seams, j);
      CutOwned(older, newest, seams[j], seams[k]);
    }
  }

  lemma SeamBefore(seams: seq<real>, j: nat)
    requires Increasing(seams) && j + 1 < |seams|
    ensures seams[j] < seams[j + 1]
  {
  }

  /** Cutting at a later seam only touches the newest words. */
  lemma CutOwned(older: seq<Word>, newest: seq<Word>, b: real, c: real)
    requires b < c && forall w :: w in older ==> w.start <= b
    ensures Upto(older + newest, c) == older + Upto(newest, c)
    ensures forall w :: w in older + Upto(newest, c) ==> w.start <= c
  {
    hide *;
    UptoAppend(older, newest, c);
    AllUpto(older, c);
    forall w | w in Upto(newest, c) ensures w.start <= c { InUpto(newest, c, w); }
  }

  lemma UptoOne(w: Word, b: real)
    ensures Upto([], b) == []
    ensures w.start > b ==> Upto([w], b) == []
    ensures w.start <= b ==> After([w], b) == []
  {
    assert [w][..0] == [];
  }

  lemma {:induction false} AllUpto(words: seq<Word>, b: real)
    requires forall w :: w in words ==> w.start <= b
    ensures Upto(words, b) == words
    decreases |words|
  {
    if words != [] {
      var init, last := words[..|words| - 1], words[|words| - 1];
      assert last in words;
      AllUpto(init, b);
      assert words == init + [last];
    }
  }

  /** Folding the windows gives each window's owned words in window order. */
  lemma StitchIsOwnership(windows: seq<seq<Word>>, seams: seq<real>)
    requires |windows| == |seams| && Increasing(seams)
    ensures Kept(windows, seams, |windows|) == AllOwned(windows, seams, |windows|)
  {
    if windows != [] {
      hide *;
      var n := |windows| - 1;
      KeptIsOwned(windows, seams, n);
      KeptStep(windows, seams, n);
    }
  }

  /** Word by word: window `k` contributes exactly its words past its seam (all of them, if
      nothing had been kept when it arrived) and not past the next. */
  lemma OwnedWords(windows: seq<seq<Word>>, seams: seq<real>, k: nat, w: Word)
    requires k < |windows| == |seams|
    ensures w in Owned(windows, seams, k) <==>
            && w in windows[k]
            && (Kept(windows, seams, k) == [] || w.start > seams[k])
            && (k + 1 < |windows| ==> w.start <= seams[k + 1])
  {
    InUpto(windows[k], seams[k], w);
    if k + 1 < |windows| {
      InUpto(Newest(windows, seams, k), seams[k + 1], w);
    }
  }

  lemma {:induction false} OwnedSurvives(windows: seq<seq<Word>>, seams: seq<real>, n: nat, k: nat, w: Word)
    requires k < n <= |windows| == |seams| && w in Owned(windows, seams, k)
    ensures w in AllOwned(windows, seams, n)
  {
    hide *;
    var last := n - 1;
    KeptStep(windows, seams, last);
    if k < last { OwnedSurvives(windows, seams, last, k, w); }
  }

  /** Window `k` heard `w` past its own seam (waived while nothing is kept) and not past the next. */
  ghost predicate HeardInside(windows: seq<seq<Word>>, seams: seq<real>, k: nat, w: Word)
    requires k < |windows| == |seams|
  {
    && w in windows[k]
    && (Kept(windows, seams, k) == [] || w.start > seams[k])
    && (k + 1 < |windows| ==> w.start <= seams[k + 1])
  }

  /** Exactly what the stitched text holds: a word survives if and only if some window heard
      it inside its interval. */
  lemma StitchedWords(windows: seq<seq<Word>>, seams: seq<real>, w: Word)
    requires |windows| == |seams| && Increasing(seams)
    ensures w in Kept(windows, seams, |windows|) <==>
            exists k: nat :: k < |windows| && HeardInside(windows, seams, k, w)
  {
    StitchIsOwnership(windows, seams);
    hide Kept, AllOwned, Owned, Increasing;
    if w in Kept(windows, seams, |windows|) {
      var k := OwnerOf(windows, seams, |windows|, w);
      OwnedWords(windows, seams, k, w);
      assert HeardInside(windows, seams, k, w);
    }
    if k: nat :| k < |windows| && HeardInside(windows, seams, k, w) {
      OwnedWords(windows, seams, k, w);
      OwnedSurvives(windows, seams, |windows|, k, w);
    }
  }

  /** A word of the first window up to the second seam is never cut. */
  lemma {:induction false} FirstWordStays(windows: seq<seq<Word>>, seams: seq<real>, k: nat, w: Word)
    requires 0 < k <= |windows| == |seams| && Increasing(seams)
    requires w in windows[0] && (|windows| > 1 ==> w.start <= seams[1])
    ensures w in Kept(windows, seams, k)
    decreases k
  {
    var j := k - 1;
    KeptStep(windows, seams, j);
    if j > 0 {
      FirstWordStays(windows, seams, j, w);
      InUpto(Kept(windows, seams, j), seams[j], w);
    }
  }

  /** In times alone: once the first window has a word at or before the second seam, a word
      survives if and only if some window hears it past its own seam (for the first window:
      anywhere) and not past the next. */
  lemma StitchedByTime(windows: seq<seq<Word>>, seams: seq<real>, first: Word, w: Word)
    requires 0 < |windows| == |seams| && Increasing(seams)
    requires first in windows[0] && (|windows| > 1 ==> first.start <= seams[1])
    ensures w in Kept(windows, seams, |windows|) <==>
            exists k: nat :: k < |windows| && HeardAt(windows, seams, k, w)
  {
    StitchedWords(windows, seams, w);
    KeptStep(windows, seams, 0);
    forall k: nat | k < |windows| ensures HeardInside(windows, seams, k, w) <==> HeardAt(windows, seams, k, w) {
      if k > 0 { FirstWordStays(windows, seams, k, first); }
    }
  }

  ghost predicate HeardAt(windows: seq<seq<Word>>, seams: seq<real>, k: nat, w: Word)
    requires k < |windows| == |seams|
  {
    w in windows[k] && (k > 0 ==> w.start > seams[k]) && (k + 1 < |windows| ==> w.start <= seams[k + 1])
  }

  lemma {:induction false} OwnerOf(windows: seq<seq<Word>>, seams: seq<real>, n: nat, w: Word) returns (k: nat)
    requires n <= |windows| == |seams| && w in AllOwned(windows, seams, n)
    ensures k < n && w in Owned(windows, seams, k)
    decreases n
  {
    hide Owned;
    k := n - 1;
    if w !in Owned(windows, seams, k) { k := OwnerOf(windows, seams, k, w); }
  }

  ghost predicate SortedByStart(words: seq<Word>) {
    forall i, j :: 0 <= i < j < |words| ==> words[i].start <= words[j].start
  }

  lemma {:induction false} SelectionSorted(words: seq<Word>, b: real)
    requires SortedByStart(words)
    ensures SortedByStart(Upto(words, b)) && SortedByStart(After(words, b))
    decreases |words|
  {
    if words != [] {
      var init, last := words[..|words| - 1], words[|words| - 1];
      SelectionSorted(init, b);
      forall w | w in Upto(init, b) || w in After(init, b) ensures w.start <= last.start { InUpto(init, b, w); }
    }
  }

  /** The stitched words are in time order if each window's are. */
  lemma {:induction false} StitchedSorted(windows: seq<seq<Word>>, seams: seq<real>, n: nat)
    requires n <= |windows| == |seams| && forall k :: 0 <= k < n ==> SortedByStart(windows[k])
    ensures SortedByStart(Kept(windows, seams, n))
  {
    if n > 0 {
      var k := n - 1;
      assert Kept(windows, seams, n) == MergeWords(Kept(windows, seams, k), windows[k], seams[k]);
      hide Kept, MergeWords;
      StitchedSorted(windows, seams, k);
      MergeSorted(Kept(windows, seams, k), windows[k], seams[k]);
    }
  }

  lemma MergeSorted(previous: seq<Word>, words: seq<Word>, b: real)
    requires SortedByStart(previous) && SortedByStart(words)
    ensures SortedByStart(MergeWords(previous, words, b))
  {
    SelectionSorted(previous, b);
    SelectionSorted(words, b);
    forall w ensures w in Upto(previous, b) ==> w.start <= b { InUpto(previous, b, w); }
    forall w ensures w in After(words, b) ==> w.start > b { InUpto(words, b, w); }
    hide Upto, After;
  }

  /** No word of window `k` past the next seam survives, and every word between its seam and
      the next is kept. */
  lemma IntervalOwnership(windows: seq<seq<Word>>, seams: seq<real>, k: nat, w: Word)
    requires k < |windows| == |seams| && Increasing(seams) && w in windows[k]
    ensures w.start > seams[k] && (k + 1 < |windows| ==> w.start <= seams[k + 1]) ==>
              w in Kept(windows, seams, |windows|)
    ensures k + 1 < |windows| && w.start > seams[k + 1] ==> w !in Owned(windows, seams, k)
  {
    StitchIsOwnership(windows, seams);
    OwnedWords(windows, seams, k, w);
    if w in Owned(windows, seams, k) {
      OwnedSurvives(windows, seams, |windows|, k, w);
    }
  }

  /** Two windows can both hear a word near their seam and the stitched text still lack it:
      the first window hears it just after the seam, the second just before. */
  lemma WordLostAtSeam(w: Word, v: Word)
    requires w.start == 23.1 && v.start == 22.9
    ensures Kept([[w], [v]], [1.0, 23.0], 2) == []
  {
    var windows, seams := [[w], [v]], [1.0, 23.0];
    KeptStep(windows, seams, 0);
    KeptStep(windows, seams, 1);
    UptoOne(w, 23.0);
    UptoOne(v, 23.0);
    UptoOne(w, 1.0);
  }
}
