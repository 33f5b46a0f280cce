/** Number words to digit tokens: an accumulator over (value, scale) words, and the merging
  of neighbouring digit tokens.
  */
module NumberWords {

  const UNIT := 1
  const TEN := 10
  const HUNDRED := 100
  const THOUSAND := 1000
  const MILLION := 1_000_000

  /** A number word's meaning. */
  datatype Word = Word(value: nat, scale: nat) {
    predicate IsScale() { scale == THOUSAND || scale == MILLION }

    predicate Valid() {
      || (scale == UNIT && value <= 9)
      || (scale == TEN && (10 <= value <= 19 || (20 <= value <= 90 && value % 10 == 0)))
      || (scale == HUNDRED && 100 <= value <= 900 && value % 100 == 0)
      || (scale == THOUSAND && value == THOUSAND)
      || (scale == MILLION && value == MILLION)
    }
  }

  type Table = map<string, Word>

  // ------------------------------------------------------------------- decimals

  function Digit(d: nat): char
    requires d < 10
  {
    '0' + d as char
  }

  function Decimal(n: nat): (s: string)
    ensures s != []
  {
    if n < 10 then [Digit(n)] else Decimal(n / 10) + [Digit(n % 10)]
  }

  predicate IsDigit(c: char) { '0' <= c <= '9' }

  predicate IsDigits(s: string) { s != [] && forall c :: c in s ==> IsDigit(c) }

  function Parse(s: string): nat
    requires forall c :: c in s ==> IsDigit(c)
  {
    if s == [] then 0 else 10 * Parse(s[..|s| - 1]) + (assert IsDigit(s[|s| - 1]); (s[|s| - 1] - '0') as nat)
  }

  lemma {:induction false} DecimalReads(n: nat)
    ensures IsDigits(Decimal(n)) && Parse(Decimal(n)) == n
    ensures n <= 999 ==> |Decimal(n)| <= 3
    ensures n >= 1000 ==> |Decimal(n)| >= 4
  {
    if n >= 10 {
      DecimalReads(n / 10);
      var s, d := Decimal(n / 10), Digit(n % 10);
      assert (s + [d])[..|s|] == s;
      if n >= 1000 && n / 10 < 1000 { ThreeDigits(n / 10); }
      if n <= 999 { TwoDigits(n / 10); }
    } else {
      assert [Digit(n)][..0] == [];
      assert Parse([]) == 0;
    }
  }

  lemma ThreeDigits(n: nat)
    requires 100 <= n <= 999
    ensures |Decimal(n)| == 3
  {
    assert |Decimal(n / 10)| == 1 + |Decimal(n / 100)|;
  }

  lemma TwoDigits(n: nat)
    requires n <= 99
    ensures |Decimal(n)| <= 2
  {
  }

  // ---------------------------------------------------------------- accumulator

  datatype Acc = Acc(result: seq<string>, current: nat, total: nat, prevScale: nat, inNumber: bool)

  const START := Acc([], 0, 0, 0, false)

  function Flush(a: Acc): Acc {
    Acc(if a.inNumber then a.result + [Decimal(a.total + a.current)] else a.result, 0, 0, 0, false)
  }

  function TakeWord(a: Acc, w: Word): Acc {
    if w.IsScale() then
      var current := if a.current == 0 then 1 else a.current;
      Acc(a.result, 0, a.total + current * w.scale, w.scale, true)
    else if a.current > 0 && w.scale >= a.prevScale then
      Acc(Flush(a.(inNumber := true)).result, w.value, 0, w.scale, true)
    else
      Acc(a.result, a.current + w.value, a.total, w.scale, true)
  }

  function TakeToken(table: Table, a: Acc, token: string): Acc {
    if token in table then TakeWord(a, table[token]) else
    var f := Flush(a);
    f.(result := f.result + [token])
  }

  function TakeAll(table: Table, a: Acc, tokens: seq<string>): Acc {
    if tokens == [] then a else TakeToken(table, TakeAll(table, a, tokens[..|tokens| - 1]), tokens[|tokens| - 1])
  }

  function Convert(table: Table, tokens: seq<string>): seq<string> {
    Flush(TakeAll(table, START, tokens)).result
  }

  method WordsToNumbers(tokens: seq<string>, table: Table) returns (result: seq<string>)
    ensures result == Convert(table, tokens)
  {
    result := [];
    var current: nat, runningTotal: nat, prevScale: nat, inNumber := 0, 0, 0, false;
    for k := 0 to |tokens|
      invariant Acc(result, current, runningTotal, prevScale, inNumber) == TakeAll(table, START, tokens[..k])
    {
      assert tokens[..k + 1][..k] == tokens[..k];
      var token := tokens[k];
      if token in table {
        inNumber := true;
        var Word(value, scale) := table[token];
        if scale == THOUSAND || scale == MILLION {
          if current == 0 {
            current := 1;
          }
          runningTotal := runningTotal + current * scale;
          current := 0;
          prevScale := scale;
        } else {
          if current > 0 && scale >= prevScale {
            result := result + [Decimal(runningTotal + current)];
            current, runningTotal := value, 0;
          } else {
            current := current + value;
          }
          prevScale := scale;
        }
      } else {
        if inNumber {
          result := result + [Decimal(runningTotal + current)];
        }
        current, runningTotal, prevScale, inNumber := 0, 0, 0, false;
        result := result + [token];
      }
    }
    assert tokens[..|tokens|] == tokens;
    if inNumber {
      result := result + [Decimal(runningTotal + current)];
    }
  }

  // -------------------------------------------------- what a run of words is worth

  /** Position just past the last scale word before `k`. */
  function GroupStart(ws: seq<Word>, k: nat): (g: nat)
    requires k <= |ws|
    ensures g <= k
    ensures forall i :: g <= i < k ==> !ws[i].IsScale()
    ensures g > 0 ==> ws[g - 1].IsScale()
  {
    if k == 0 || ws[k - 1].IsScale() then k else GroupStart(ws, k - 1)
  }

  function Sum(ws: seq<Word>, lo: nat, hi: nat): nat
    requires lo <= hi <= |ws|
  {
    if lo == hi then 0 else Sum(ws, lo, hi - 1) + ws[hi - 1].value
  }

  /** The scale word that multiplies position `k`: the first one at or after it, if any. */
  function Multiplier(ws: seq<Word>, k: nat): nat
    requires k <= |ws|
    decreases |ws| - k
  {
    if k == |ws| then 1 else if ws[k].IsScale() then ws[k].scale else Multiplier(ws, k + 1)
  }

  /** A plain word counts its value times its multiplier; a scale word counts itself only
      when nothing but zeros precedes it in its group. */
  function Worth(ws: seq<Word>, k: nat): nat
    requires k < |ws|
  {
    if ws[k].IsScale() then (if Sum(ws, GroupStart(ws, k), k) == 0 then ws[k].scale else 0)
    else ws[k].value * Multiplier(ws, k)
  }

  function WorthOf(ws: seq<Word>, n: nat): nat
    requires n <= |ws|
  {
    if n == 0 then 0 else WorthOf(ws, n - 1) + Worth(ws, n - 1)
  }

  /** The number a run of words denotes. */
  function Value(ws: seq<Word>): nat {
    WorthOf(ws, |ws|)
  }

  /** Words one number may consist of: after a plain word that counts, the next plain word
      has a smaller scale. */
  predicate OneNumber(ws: seq<Word>) {
    forall k :: 0 < k < |ws| ==> FallsAt(ws, k)
  }

  predicate FallsAt(ws: seq<Word>, k: nat)
    requires 0 < k < |ws|
  {
    !ws[k].IsScale() && Sum(ws, GroupStart(ws, k), k) > 0 ==> ws[k].scale < ws[k - 1].scale
  }

  lemma {:induction false} SnocKeepsPrefix(ws: seq<Word>, w: Word, k: nat)
    requires k <= |ws|
    ensures GroupStart(ws + [w], k) == GroupStart(ws, k)
    ensures forall lo :: 0 <= lo <= k ==> Sum(ws + [w], lo, k) == Sum(ws, lo, k)
    decreases k
  {
    if k > 0 { SnocKeepsPrefix(ws, w, k - 1); }
  }

  lemma {:induction false} MultiplierSnoc(ws: seq<Word>, w: Word, k: nat)
    requires k <= |ws|
    ensures Multiplier(ws + [w], k) ==
            if k >= GroupStart(ws, |ws|) then (if w.IsScale() then w.scale else 1) else Multiplier(ws, k)
    ensures k >= GroupStart(ws, |ws|) ==> Multiplier(ws, k) == 1
    decreases |ws| - k
  {
    if k < |ws| {
      MultiplierSnoc(ws, w, k + 1);
    } else {
      assert (ws + [w])[k] == w;
    }
  }

  lemma {:induction false} WorthSnoc(ws: seq<Word>, w: Word, n: nat)
    requires n <= |ws|
    ensures var g, m := GroupStart(ws, |ws|), if w.IsScale() then w.scale else 1;
            && (n <= g ==> WorthOf(ws + [w], n) == WorthOf(ws, n))
            && (n >= g ==>
                  && WorthOf(ws + [w], n) == WorthOf(ws, g) + m * Sum(ws, g, n)
                  && WorthOf(ws, n) == WorthOf(ws, g) + Sum(ws, g, n))
    decreases n
  {
    var g, m, more := GroupStart(ws, |ws|), if w.IsScale() then w.scale else 1, ws + [w];
    if n == 0 {
      assert g == 0 ==> Sum(ws, g, n) == 0;
    } else {
      var k := n - 1;
      WorthSnoc(ws, w, k);
      SnocKeepsPrefix(ws, w, k);
      MultiplierSnoc(ws, w, k);
      NextWorth(ws, k);
      NextWorth(more, k);
      assert more[k] == ws[k];
      hide GroupStart, Multiplier, Worth, WorthOf, Sum;
      if n > g {
        assert Worth(more, k) == ws[k].value * m && Worth(ws, k) == ws[k].value;
        hide *;
        Distribute(m, Sum(ws, g, k), ws[k].value);
      } else {
        assert Worth(more, k) == Worth(ws, k);
      }
    }
  }

  lemma Distribute(m: nat, x: nat, y: nat)
    ensures m * (x + y) == m * x + y * m
  {
  }

  /** One unfolding at position `k`. */
  lemma NextWorth(ws: seq<Word>, k: nat)
    requires k < |ws|
    ensures WorthOf(ws, k + 1) == WorthOf(ws, k) + Worth(ws, k)
    ensures Worth(ws, k) == (if ws[k].IsScale() then (if Sum(ws, GroupStart(ws, k), k) == 0 then ws[k].scale else 0)
                             else ws[k].value * Multiplier(ws, k))
    ensures forall lo :: 0 <= lo <= k ==> Sum(ws, lo, k + 1) == Sum(ws, lo, k) + ws[k].value
    ensures Sum(ws, k + 1, k + 1) == 0
  {
  }

  /** One more word: a plain word adds its value, a scale word multiplies its group. */
  lemma ValueSnoc(ws: seq<Word>, w: Word)
    ensures var group := Sum(ws, GroupStart(ws, |ws|), |ws|);
            && group <= Value(ws)
            && Value(ws + [w]) ==
               (if w.IsScale() then Value(ws) - group + (if group == 0 then 1 else group) * w.scale
                else Value(ws) + w.value)
            && Sum(ws + [w], GroupStart(ws + [w], |ws| + 1), |ws| + 1) == (if w.IsScale() then 0 else group + w.value)
  {
    hide *;
    hide Value;
    var n, g, more := |ws|, GroupStart(ws, |ws|), ws + [w];
    assert more[n] == w;
    WorthSnoc(ws, w, n);
    SnocKeepsPrefix(ws, w, n);
    LastWord(more);
    MultiplierSnoc(ws, w, n);
    WholeValue(ws);
    var before, group, last := WorthOf(ws, g), Sum(ws, g, n), Worth(more, n);
    if !w.IsScale() {
      assert last == w.value * 1;
    } else if w.scale == THOUSAND {
      assert Value(more) == before + THOUSAND * group + (if group == 0 then THOUSAND else 0);
    } else {
      assert Value(more) == before + w.scale * group + (if group == 0 then w.scale else 0);
    }
  }

  lemma WholeValue(ws: seq<Word>)
    ensures Value(ws) == WorthOf(ws, |ws|)
  {
  }

  /** One unfolding at the last word. */
  lemma LastWord(ws: seq<Word>)
    requires ws != []
    ensures var n, w := |ws| - 1, ws[|ws| - 1];
            && Value(ws) == WorthOf(ws, n) + Worth(ws, n)
            && Worth(ws, n) == (if w.IsScale() then (if Sum(ws, GroupStart(ws, n), n) == 0 then w.scale else 0)
                                else w.value * Multiplier(ws, n))
            && GroupStart(ws, n + 1) == (if w.IsScale() then n + 1 else GroupStart(ws, n))
            && (forall lo :: 0 <= lo <= n ==> Sum(ws, lo, n + 1) == Sum(ws, lo, n) + w.value)
            && Sum(ws, n + 1, n + 1) == 0
  {
  }

  // ---------------------------------------------------- segmentation of any input

  /** A stretch of the input: one token that is not a number word, or the words of one
      number. */
  datatype Piece = Plain(token: string) | Number(tokens: seq<string>)

  function PieceTokens(p: Piece): seq<string> {
    match p
    case Plain(token) => [token]
    case Number(tokens) => tokens
  }

  function AllTokens(pieces: seq<Piece>): seq<string> {
    if pieces == [] then [] else AllTokens(pieces[..|pieces| - 1]) + PieceTokens(pieces[|pieces| - 1])
  }

  predicate AreWords(table: Table, tokens: seq<string>) {
    forall token :: token in tokens ==> token in table
  }

  function WordsOf(table: Table, tokens: seq<string>): (ws: seq<Word>)
    requires AreWords(table, tokens)
    ensures |ws| == |tokens|
  {
    seq(|tokens|, k requires 0 <= k < |tokens| => assert tokens[k] in tokens; table[tokens[k]])
  }

  predicate PieceOk(table: Table, p: Piece) {
    match p
    case Plain(token) => token !in table
    case Number(tokens) => tokens != [] && AreWords(table, tokens) && OneNumber(WordsOf(table, tokens))
  }

  function Rendered(table: Table, p: Piece): string
    requires PieceOk(table, p)
  {
    match p
    case Plain(token) => token
    case Number(tokens) => Decimal(Value(WordsOf(table, tokens)))
  }

  function RenderAll(table: Table, pieces: seq<Piece>): seq<string>
    requires forall p :: p in pieces ==> PieceOk(table, p)
  {
    seq(|pieces|, k requires 0 <= k < |pieces| => assert pieces[k] in pieces; Rendered(table, pieces[k]))
  }

  /** `w` cannot extend the number `ws`: the open group counts already, and `w` does not
      fall below the last word. */
  predicate Breaks(ws: seq<Word>, w: Word) {
    ws != [] && !w.IsScale() && Sum(ws, GroupStart(ws, |ws|), |ws|) > 0 && w.scale >= ws[|ws| - 1].scale
  }

  /** Two numbers are neighbours only where the second one's first word breaks the first. */
  predicate CutAt(table: Table, pieces: seq<Piece>, k: nat)
    requires 0 < k < |pieces| && PieceOk(table, pieces[k - 1]) && PieceOk(table, pieces[k])
  {
    pieces[k - 1].Number? && pieces[k].Number? ==>
      Breaks(WordsOf(table, pieces[k - 1].tokens), WordsOf(table, pieces[k].tokens)[0])
  }

  /** The numbers are as long as they can be. */
  ghost predicate WellCut(table: Table, pieces: seq<Piece>) {
    && (forall p :: p in pieces ==> PieceOk(table, p))
    && forall k :: 0 < k < |pieces| ==> CutAt(table, pieces, k)
  }

  /** `pieces` cut the tokens up, numbers as long as they can be, and render to the output. */
  ghost predicate Explains(table: Table, pieces: seq<Piece>, tokens: seq<string>, output: seq<string>) {
    && AllTokens(pieces) == tokens
    && WellCut(table, pieces)
    && RenderAll(table, pieces) == output
  }

  /** The accumulator while number `words` is open after `pieces`. */
  ghost predicate OpenState(table: Table, a: Acc, pieces: seq<Piece>, words: seq<string>) {
    && (forall p :: p in pieces ==> PieceOk(table, p))
    && RenderAll(table, pieces) == a.result
    && a.inNumber == (words != [])
    && AreWords(table, words)
    && var ws := WordsOf(table, words);
    && OneNumber(ws)
    && a.current == Sum(ws, GroupStart(ws, |ws|), |ws|)
    && a.total + a.current == Value(ws)
    && (words != [] ==> a.prevScale == ws[|ws| - 1].scale)
  }

  lemma RenderSnoc(table: Table, pieces: seq<Piece>, p: Piece)
    requires (forall q :: q in pieces ==> PieceOk(table, q)) && PieceOk(table, p)
    ensures forall q :: q in pieces + [p] ==> PieceOk(table, q)
    ensures RenderAll(table, pieces + [p]) == RenderAll(table, pieces) + [Rendered(table, p)]
    ensures AllTokens(pieces + [p]) == AllTokens(pieces) + PieceTokens(p)
  {
    assert (pieces + [p])[..|pieces|] == pieces;
  }

  lemma WordsSnoc(table: Table, words: seq<string>, token: string)
    requires AreWords(table, words) && token in table
    ensures AreWords(table, words + [token])
            && WordsOf(table, words + [token]) == WordsOf(table, words) + [table[token]]
  {
  }

  lemma ContinueNumber(ws: seq<Word>, w: Word)
    requires OneNumber(ws)
    requires ws != [] && !w.IsScale() && Sum(ws, GroupStart(ws, |ws|), |ws|) > 0 ==> w.scale < ws[|ws| - 1].scale
    ensures OneNumber(ws + [w])
  {
    hide Sum, GroupStart;
    var more := ws + [w];
    forall k | 0 < k < |more| ensures FallsAt(more, k) {
      SnocKeepsPrefix(ws, w, k);
      if k < |ws| { assert FallsAt(ws, k); }
    }
  }

  /** Closing the open number: it becomes a piece. */
  function Closed(pieces: seq<Piece>, words: seq<string>): seq<Piece> {
    if words == [] then pieces else pieces + [Number(words)]
  }

  lemma CloseNumber(table: Table, a: Acc, pieces: seq<Piece>, words: seq<string>)
    requires OpenState(table, a, pieces, words)
    ensures OpenState(table, Flush(a), Closed(pieces, words), [])
    ensures AllTokens(Closed(pieces, words)) == AllTokens(pieces) + words
  {
    if words != [] { RenderSnoc(table, pieces, Number(words)); }
  }

  /** The cuts made so far are where they belong, and no number that could go on is closed. */
  ghost predicate Cutting(table: Table, pieces: seq<Piece>, words: seq<string>) {
    && WellCut(table, Closed(pieces, words))
    && (words == [] && pieces != [] ==> pieces[|pieces| - 1].Plain?)
  }

  lemma WellCutSnoc(table: Table, pieces: seq<Piece>, p: Piece)
    requires WellCut(table, pieces) && PieceOk(table, p)
    requires p.Number? && pieces != [] && pieces[|pieces| - 1].Number? ==>
               assert pieces[|pieces| - 1] in pieces;
               Breaks(WordsOf(table, pieces[|pieces| - 1].tokens), WordsOf(table, p.tokens)[0])
    ensures WellCut(table, pieces + [p])
  {
    hide PieceOk, Breaks;
    var more := pieces + [p];
    assert forall q :: q in more ==> q in pieces || q == p;
    forall k | 0 < k < |more| ensures CutAt(table, more, k) {
      assert k < |pieces| ==> CutAt(table, pieces, k) && more[k] == pieces[k];
      assert more[k - 1] == pieces[k - 1];
    }
  }

  lemma WellCutInit(table: Table, pieces: seq<Piece>)
    requires WellCut(table, pieces) && pieces != []
    ensures WellCut(table, pieces[..|pieces| - 1])
  {
    hide PieceOk, Breaks;
    var init := pieces[..|pieces| - 1];
    forall k | 0 < k < |init| ensures CutAt(table, init, k) {
      assert CutAt(table, pieces, k) && init[k] == pieces[k] && init[k - 1] == pieces[k - 1];
    }
  }

  /** One more word extends the last number; its left border stays. */
  lemma CutContinues(table: Table, pieces: seq<Piece>, words: seq<string>, token: string)
    requires Cutting(table, pieces, words) && AreWords(table, words) && token in table
    requires OneNumber(WordsOf(table, words + [token]))
    ensures Cutting(table, pieces, words + [token])
  {
    var p := Number(words + [token]);
    assert PieceOk(table, p);
    if words != [] {
      var closed := Closed(pieces, words);
      assert closed[..|closed| - 1] == pieces;
      WellCutInit(table, closed);
      assert pieces != [] ==> CutAt(table, closed, |pieces|);
      assert WordsOf(table, p.tokens)[0] == WordsOf(table, words)[0];
    }
    WellCutSnoc(table, pieces, p);
  }

  lemma CutBreaks(table: Table, pieces: seq<Piece>, words: seq<string>, token: string)
    requires Cutting(table, pieces, words) && AreWords(table, words) && words != [] && token in table
    requires Breaks(WordsOf(table, words), table[token])
    ensures Cutting(table, Closed(pieces, words), [token])
  {
    var closed := Closed(pieces, words);
    assert WordsOf(table, [token]) == [table[token]];
    WellCutSnoc(table, closed, Number([token]));
  }

  lemma CutPlain(table: Table, pieces: seq<Piece>, words: seq<string>, token: string)
    requires Cutting(table, pieces, words) && token !in table
    ensures Cutting(table, Closed(pieces, words) + [Plain(token)], [])
  {
    WellCutSnoc(table, Closed(pieces, words), Plain(token));
  }

  /** Follow the accumulator over any tokens, cutting as it goes. */
  lemma {:induction false} Segment(table: Table, tokens: seq<string>) returns (pieces: seq<Piece>, words: seq<string>)
    ensures OpenState(table, TakeAll(table, START, tokens), pieces, words)
    ensures Cutting(table, pieces, words)
    ensures AllTokens(pieces) + words == tokens
    decreases |tokens|
  {
    if tokens == [] {
      return [], [];
    }
    var init, token := tokens[..|tokens| - 1], tokens[|tokens| - 1];
    pieces, words := Segment(table, init);
    assert tokens == init + [token];
    pieces, words := SegmentStep(table, TakeAll(table, START, init), pieces, words, token);
  }

  lemma SegmentStep(table: Table, a: Acc, pieces: seq<Piece>, words: seq<string>, token: string)
    returns (pieces': seq<Piece>, words': seq<string>)
    requires OpenState(table, a, pieces, words) && Cutting(table, pieces, words)
    ensures OpenState(table, TakeToken(table, a, token), pieces', words') && Cutting(table, pieces', words')
    ensures AllTokens(pieces') + words' == AllTokens(pieces) + words + [token]
  {
    hide OpenState, AllTokens, Closed, Decimal, Cutting, Breaks;
    CloseNumber(table, a, pieces, words);
    if token !in table {
      CutPlain(table, pieces, words, token);
      AddPlain(table, Flush(a), Closed(pieces, words), token);
      return Closed(pieces, words) + [Plain(token)], [];
    }
    var w := table[token];
    if !w.IsScale() && a.current > 0 && w.scale >= a.prevScale {
      CountingIsOpen(table, a, pieces, words, w);
      CutBreaks(table, pieces, words, token);
      WordContinues(table, Flush(a), Closed(pieces, words), [], token);
      assert TakeWord(a, w) == TakeWord(Flush(a), w);
      assert [] + [token] == [token];
      return Closed(pieces, words), [token];
    }
    WordContinues(table, a, pieces, words, token);
    CutContinues(table, pieces, words, token);
    return pieces, words + [token];
  }

  lemma AddPlain(table: Table, a: Acc, pieces: seq<Piece>, token: string)
    requires OpenState(table, a, pieces, []) && token !in table
    ensures OpenState(table, a.(result := a.result + [token]), pieces + [Plain(token)], [])
    ensures AllTokens(pieces + [Plain(token)]) == AllTokens(pieces) + [token]
  {
    RenderSnoc(table, pieces, Plain(token));
  }

  lemma CountingIsOpen(table: Table, a: Acc, pieces: seq<Piece>, words: seq<string>, w: Word)
    requires OpenState(table, a, pieces, words) && a.current > 0 && !w.IsScale() && w.scale >= a.prevScale
    ensures a.inNumber && words != [] && AreWords(table, words) && Breaks(WordsOf(table, words), w)
  {
  }

  /** A word that does not start a new number extends the open one. */
  lemma WordContinues(table: Table, a: Acc, pieces: seq<Piece>, words: seq<string>, token: string)
    requires OpenState(table, a, pieces, words) && token in table
    requires !table[token].IsScale() && a.current > 0 ==> table[token].scale < a.prevScale
    ensures OpenState(table, TakeWord(a, table[token]), pieces, words + [token])
    ensures AreWords(table, words) && AreWords(table, words + [token]) && OneNumber(WordsOf(table, words + [token]))
  {
    var ws, w := WordsOf(table, words), table[token];
    WordsSnoc(table, words, token);
    ValueSnoc(ws, w);
    ContinueNumber(ws, w);
    hide GroupStart, Sum, Value, RenderAll, PieceOk, OneNumber;
  }

  /** For every input: the output is the input cut into consecutive pieces, each plain token
      surviving in place and each longest stretch of number words that can be one number
      replaced by the decimal of its value. */
  lemma ConvertSegments(table: Table, tokens: seq<string>) returns (pieces: seq<Piece>)
    ensures Explains(table, pieces, tokens, Convert(table, tokens))
  {
    var words;
    pieces, words := Segment(table, tokens);
    CloseNumber(table, TakeAll(table, START, tokens), pieces, words);
    pieces := Closed(pieces, words);
  }

  // ------------------------------------------------------ there is only one such cut

  /** The pieces without their last token. */
  function DropToken(pieces: seq<Piece>): seq<Piece>
    requires pieces != []
  {
    var init, last := pieces[..|pieces| - 1], pieces[|pieces| - 1];
    if last.Plain? || |last.tokens| <= 1 then init else init + [Number(last.tokens[..|last.tokens| - 1])]
  }

  function LastToken(pieces: seq<Piece>): string
    requires pieces != []
  {
    match pieces[|pieces| - 1]
    case Plain(token) => token
    case Number(tokens) => if tokens == [] then "" else tokens[|tokens| - 1]
  }

  lemma ShorterNumber(table: Table, words: seq<string>)
    requires PieceOk(table, Number(words)) && |words| > 1
    ensures PieceOk(table, Number(words[..|words| - 1]))
    ensures WordsOf(table, words[..|words| - 1])[0] == WordsOf(table, words)[0]
    ensures words[|words| - 1] in table
    ensures !Breaks(WordsOf(table, words[..|words| - 1]), table[words[|words| - 1]])
  {
    var init, last := words[..|words| - 1], words[|words| - 1];
    assert words == init + [last];
    assert forall token :: token in init ==> token in words;
    WordsSnoc(table, init, last);
    OneNumberPrefix(WordsOf(table, init), table[last]);
  }

  lemma DropTokenOk(table: Table, pieces: seq<Piece>)
    requires WellCut(table, pieces) && pieces != []
    ensures WellCut(table, DropToken(pieces))
    ensures AllTokens(pieces) == AllTokens(DropToken(pieces)) + [LastToken(pieces)]
    ensures LastToken(pieces) in table <==> pieces[|pieces| - 1].Number?
  {
    hide *;
    var n := |pieces| - 1;
    CutIsAt(table, pieces, n);
    WellCutInit(table, pieces);
    assert pieces == pieces[..n] + [pieces[n]];
    match pieces[n]
    case Plain(token) =>
      DropTokenOf(pieces[..n], Plain(token));
      PieceFacts(table, pieces[n]);
    case Number(words) =>
      NumberLast(table, pieces[..n], words);
  }

  lemma DropTokenOf(init: seq<Piece>, p: Piece)
    ensures DropToken(init + [p]) ==
            if p.Plain? || |p.tokens| <= 1 then init else init + [Number(p.tokens[..|p.tokens| - 1])]
    ensures LastToken(init + [p]) == match p {
              case Plain(token) => token
              case Number(tokens) => if tokens == [] then "" else tokens[|tokens| - 1]
            }
    ensures AllTokens(init + [p]) == AllTokens(init) + (if p.Plain? then [p.token] else p.tokens)
  {
    assert (init + [p])[..|init|] == init;
  }

  lemma PieceFacts(table: Table, p: Piece)
    requires PieceOk(table, p)
    ensures p.Plain? ==> p.token !in table
    ensures p.Number? ==> p.tokens != []
  {
  }

  lemma NumberLast(table: Table, init: seq<Piece>, words: seq<string>)
    requires WellCut(table, init + [Number(words)]) && WellCut(table, init) && PieceOk(table, Number(words))
    ensures var pieces := init + [Number(words)];
            && WellCut(table, DropToken(pieces)) && LastToken(pieces) in table
            && AllTokens(pieces) == AllTokens(DropToken(pieces)) + [LastToken(pieces)]
  {
    assert words[|words| - 1] in words;
    hide *;
    DropNumber(init, words);
    if |words| > 1 { ShorterPiece(table, init, words); }
  }

  lemma DropNumber(init: seq<Piece>, words: seq<string>)
    requires words != []
    ensures var pieces, last := init + [Number(words)], words[|words| - 1];
            && DropToken(pieces) == (if |words| > 1 then init + [Number(words[..|words| - 1])] else init)
            && LastToken(pieces) == last
            && AllTokens(pieces) == AllTokens(DropToken(pieces)) + [last]
  {
    hide *;
    DropTokenOf(init, Number(words));
    LastApart(AllTokens(init), words);
    if |words| > 1 {
      DropTokenOf(init, Number(words[..|words| - 1]));
    }
  }

  lemma LastApart(x: seq<string>, words: seq<string>)
    requires words != []
    ensures x + words == x + words[..|words| - 1] + [words[|words| - 1]]
    ensures |words| == 1 ==> x + words == x + [words[|words| - 1]]
  {
    assert words == words[..|words| - 1] + [words[|words| - 1]];
  }

  lemma ShorterPiece(table: Table, init: seq<Piece>, words: seq<string>)
    requires WellCut(table, init + [Number(words)]) && WellCut(table, init) && PieceOk(table, Number(words))
             && |words| > 1
    ensures WellCut(table, init + [Number(words[..|words| - 1])])
  {
    var n, pieces, shorter := |init|, init + [Number(words)], Number(words[..|words| - 1]);
    ShorterNumber(table, words);
    CutIsAt(table, pieces, n);
    if n > 0 { CutIsAt(table, init, n - 1); }
    assert n > 0 ==> pieces[n - 1] == init[n - 1];
    hide PieceOk, WellCut, Breaks, AllTokens;
    WellCutSnoc(table, init, shorter);
  }

  lemma CutIsAt(table: Table, pieces: seq<Piece>, k: nat)
    requires WellCut(table, pieces) && k < |pieces|
    ensures PieceOk(table, pieces[k])
    ensures k > 0 ==> PieceOk(table, pieces[k - 1]) && CutAt(table, pieces, k)
  {
  }

  /** The same last token after the same pieces. */
  lemma SameLast(table: Table, x: seq<Piece>, y: seq<Piece>)
    requires WellCut(table, x) && WellCut(table, y) && x != [] && y != []
    requires DropToken(x) == DropToken(y) && LastToken(x) == LastToken(y)
    requires x[|x| - 1].Number? && |x[|x| - 1].tokens| == 1 && y[|y| - 1].Number?
    ensures |y[|y| - 1].tokens| == 1
  {
    var m, n := |x| - 1, |y| - 1;
    CutIsAt(table, x, m);
    CutIsAt(table, y, n);
    hide WellCut, Breaks, OneNumber;
    var words := y[n].tokens;
    if |words| > 1 {
      ShorterNumber(table, words);
      assert false;
    }
  }

  /** Only one way to cut a token list: numbers as long as they can be. */
  lemma {:induction false} CutUnique(table: Table, x: seq<Piece>, y: seq<Piece>)
    requires WellCut(table, x) && WellCut(table, y) && AllTokens(x) == AllTokens(y)
    ensures x == y
    decreases |AllTokens(x)|
  {
    if x != [] { DropTokenOk(table, x); }
    if y != [] { DropTokenOk(table, y); }
    if x != [] && y != [] {
      var tokens := AllTokens(x);
      assert LastToken(x) == tokens[|tokens| - 1] == LastToken(y);
      assert AllTokens(DropToken(x)) == tokens[..|tokens| - 1] == AllTokens(DropToken(y));
      CutUnique(table, DropToken(x), DropToken(y));
      var p, q := x[|x| - 1], y[|y| - 1];
      if p.Number? {
        if |p.tokens| == 1 { SameLast(table, x, y); }
        if |q.tokens| == 1 { SameLast(table, y, x); }
      }
      Rebuilt(table, x);
      Rebuilt(table, y);
    }
  }

  /** The pieces from what is left of them and the last token. */
  lemma Rebuilt(table: Table, pieces: seq<Piece>)
    requires WellCut(table, pieces) && pieces != []
    ensures var rest, token, last := DropToken(pieces), LastToken(pieces), pieces[|pieces| - 1];
            && (last.Plain? ==> pieces == rest + [Plain(token)])
            && (last.Number? && |last.tokens| == 1 ==> pieces == rest + [Number([token])])
            && (last.Number? && |last.tokens| != 1 ==>
                  && rest != [] && rest[|rest| - 1].Number?
                  && pieces == rest[..|rest| - 1] + [Number(rest[|rest| - 1].tokens + [token])])
  {
    hide *;
    var n := |pieces| - 1;
    var init, last := pieces[..n], pieces[n];
    CutIsAt(table, pieces, n);
    assert pieces == init + [last];
    DropTokenOf(init, last);
    if last.Number? {
      PieceFacts(table, last);
      var words := last.tokens;
      if |words| == 1 {
        assert words == [words[0]];
      } else {
        var shorter := Number(words[..|words| - 1]);
        assert words == shorter.tokens + [words[|words| - 1]];
        assert (init + [shorter])[..n] == init;
      }
    }
  }

  /** An explanation determines the output, and the output is what the program computes. */
  lemma OnlyExplanation(table: Table, pieces: seq<Piece>, tokens: seq<string>, output: seq<string>)
    requires Explains(table, pieces, tokens, output)
    ensures output == Convert(table, tokens)
  {
    var found := ConvertSegments(table, tokens);
    CutUnique(table, pieces, found);
  }

  // ---------------------------------------------------------- a number at a time

  ghost predicate PlainWords(ws: seq<Word>) {
    forall k :: 0 <= k < |ws| ==> ws[k].Valid() && !ws[k].IsScale()
  }

  lemma {:induction false} PlainGroup(ws: seq<Word>, k: nat)
    requires k <= |ws| && forall i :: 0 <= i < k ==> !ws[i].IsScale()
    ensures GroupStart(ws, k) == 0
  {
    if k > 0 { PlainGroup(ws, k - 1); }
  }

  lemma OneNumberPrefix(ws: seq<Word>, w: Word)
    requires OneNumber(ws + [w])
    ensures OneNumber(ws)
    ensures ws != [] && !w.IsScale() && Sum(ws, GroupStart(ws, |ws|), |ws|) > 0 ==> w.scale < ws[|ws| - 1].scale
  {
    hide Sum, GroupStart;
    var more := ws + [w];
    forall k | 0 < k < |ws| ensures FallsAt(ws, k) {
      SnocKeepsPrefix(ws, w, k);
      assert FallsAt(more, k);
    }
    SnocKeepsPrefix(ws, w, |ws|);
    assert ws != [] ==> FallsAt(more, |ws|);
  }

  /** One more plain word after plain words. */
  lemma PlainSnoc(ws: seq<Word>, w: Word)
    requires PlainWords(ws) && Value(ws) == Sum(ws, 0, |ws|) && !w.IsScale() && OneNumber(ws + [w])
    ensures Value(ws + [w]) == Value(ws) + w.value == Sum(ws + [w], 0, |ws| + 1)
    ensures OneNumber(ws)
    ensures ws != [] && Value(ws) > 0 ==> w.scale < ws[|ws| - 1].scale
  {
    PlainGroup(ws, |ws|);
    OneNumberPrefix(ws, w);
    ValueSnoc(ws, w);
    SnocKeepsPrefix(ws, w, |ws|);
    NextWorth(ws + [w], |ws|);
    assert (ws + [w])[|ws|] == w;
    hide *;
  }

  /** Without thousands or millions one number stays below a thousand. */
  lemma {:induction false} PlainNumberBound(ws: seq<Word>)
    requires PlainWords(ws) && OneNumber(ws)
    ensures Value(ws) <= 999
    ensures ws != [] && ws[|ws| - 1].scale == TEN ==> Value(ws) <= 990
    ensures ws != [] && ws[|ws| - 1].scale == HUNDRED ==> Value(ws) <= 900
    ensures Value(ws) == Sum(ws, 0, |ws|)
    decreases |ws|
  {
    if ws != [] {
      var init, w := ws[..|ws| - 1], ws[|ws| - 1];
      assert ws == init + [w];
      assert w.Valid() && !w.IsScale() && PlainWords(init);
      assert init != [] ==> init[|init| - 1].Valid() && !init[|init| - 1].IsScale();
      assert init == [] ==> Value(init) == Sum(init, 0, 0) == 0;
      hide OneNumber, PlainWords, Value, Sum;
      if init != [] {
        OneNumberPrefix(init, w);
        PlainNumberBound(init);
      }
      PlainSnoc(init, w);
    }
  }

  ghost predicate TableOk(table: Table) {
    forall token :: token in table ==> table[token].Valid()
  }

  ghost predicate NoScaleWords(table: Table, tokens: seq<string>) {
    forall token :: token in tokens && token in table ==> !table[token].IsScale()
  }

  lemma {:induction false} PiecesWithin(pieces: seq<Piece>, p: Piece)
    requires p in pieces
    ensures forall token :: token in PieceTokens(p) ==> token in AllTokens(pieces)
  {
    var init, last := pieces[..|pieces| - 1], pieces[|pieces| - 1];
    if p != last { PiecesWithin(init, p); }
  }

  /** On scale-free input every emitted number has at most three digits. */
  lemma EmittedNumbersAreShort(table: Table, tokens: seq<string>) returns (pieces: seq<Piece>)
    requires TableOk(table) && NoScaleWords(table, tokens)
    ensures Explains(table, pieces, tokens, Convert(table, tokens))
    ensures forall p :: p in pieces && p.Number? ==> |Rendered(table, p)| <= 3 && IsDigits(Rendered(table, p))
  {
    pieces := ConvertSegments(table, tokens);
    forall p | p in pieces && p.Number? ensures |Rendered(table, p)| <= 3 && IsDigits(Rendered(table, p)) {
      PiecesWithin(pieces, p);
      var ws := WordsOf(table, p.tokens);
      forall k | 0 <= k < |ws| ensures ws[k].Valid() && !ws[k].IsScale() {
        assert p.tokens[k] in p.tokens && p.tokens[k] in PieceTokens(p);
      }
      PlainNumberBound(ws);
      DecimalReads(Value(ws));
    }
  }

  // ---------------------------------------------------------------- round trip

  function SpellGroup(g: nat): seq<Word>
    requires g <= 999
  {
    var rest := g % 100;
    (if g >= 100 then [Word(g / 100 * 100, HUNDRED)] else []) +
    (if 10 <= rest <= 19 then [Word(rest, TEN)]
     else (if rest >= 20 then [Word(rest / 10 * 10, TEN)] else []) +
          (if rest % 10 > 0 then [Word(rest % 10, UNIT)] else []))
  }

  /** A group and its scale word; `bare` leaves out the "one" of one thousand or million. */
  function SpellScaled(g: nat, scale: nat, bare: bool): seq<Word>
    requires g <= 999
  {
    if g == 0 then [] else (if bare && g == 1 then [] else SpellGroup(g)) + [Word(scale, scale)]
  }

  function SpellOut(n: nat, bare: bool): seq<Word>
    requires n < 1_000_000_000
  {
    if n == 0 then [Word(0, UNIT)] else
    SpellScaled(n / MILLION, MILLION, bare) + SpellScaled(n / THOUSAND % THOUSAND, THOUSAND, bare) +
      SpellGroup(n % THOUSAND)
  }

  function TakeWords(a: Acc, ws: seq<Word>): Acc
    decreases |ws|
  {
    if ws == [] then a else TakeWords(TakeWord(a, ws[0]), ws[1..])
  }

  lemma {:induction false} TakeWordsAppend(a: Acc, x: seq<Word>, y: seq<Word>)
    ensures TakeWords(a, x + y) == TakeWords(TakeWords(a, x), y)
    decreases |x|
  {
    if x == [] {
      assert x + y == y;
    } else {
      assert (x + y)[1..] == x[1..] + y;
      TakeWordsAppend(TakeWord(a, x[0]), x[1..], y);
    }
  }

  lemma TakeOne(a: Acc, w: Word)
    ensures TakeWords(a, []) == a
    ensures TakeWords(a, [w]) == TakeWord(a, w)
  {
    assert TakeWords(TakeWord(a, w), [w][1..]) == TakeWord(a, w);
  }

  /** An open number with nothing pending. */
  predicate Idle(a: Acc, result: seq<string>, total: nat) {
    a.result == result && a.current == 0 && a.total == total
  }

  lemma TensAndUnits(a: Acc, rest: nat)
    requires rest < 100 && (a.current > 0 ==> a.prevScale == HUNDRED && a.inNumber)
    ensures var ws := SpellGroup(rest);
            var b := TakeWords(a, ws);
            b.result == a.result && b.total == a.total && b.current == a.current + rest
              && (rest > 0 || a.inNumber ==> b.inNumber)
  {
    hide Decimal, TakeWords;
    var ws := SpellGroup(rest);
    if 10 <= rest <= 19 {
      assert ws == [Word(rest, TEN)];
      TakeOne(a, Word(rest, TEN));
    } else {
      var tens := if rest >= 20 then [Word(rest / 10 * 10, TEN)] else [];
      var units := if rest % 10 > 0 then [Word(rest % 10, UNIT)] else [];
      assert ws == tens + units;
      hide SpellGroup;
      TakeWordsAppend(a, tens, units);
      TakeOne(a, Word(rest / 10 * 10, TEN));
      TakeOne(TakeWords(a, tens), Word(rest % 10, UNIT));
    }
  }

  /** A spelled group accumulates without being broken up. */
  lemma GroupTaken(a: Acc, g: nat)
    requires g <= 999 && a.current == 0
    ensures var b := TakeWords(a, SpellGroup(g));
            b.result == a.result && b.total == a.total && b.current == g && (g > 0 || a.inNumber ==> b.inNumber)
  {
    if g < 100 {
      TensAndUnits(a, g);
    } else {
      var h, rest := g / 100 * 100, g % 100;
      var hundreds, after := [Word(h, HUNDRED)], Acc(a.result, h, a.total, HUNDRED, true);
      assert g == h + rest && h > 0;
      assert SpellGroup(g) == hundreds + SpellGroup(rest);
      assert TakeWord(a, hundreds[0]) == after;
      hide *;
      TakeWordsAppend(a, hundreds, SpellGroup(rest));
      TakeOne(a, hundreds[0]);
      TensAndUnits(after, rest);
    }
  }

  lemma ScaledTaken(a: Acc, g: nat, scale: nat, bare: bool)
    requires g <= 999 && (scale == THOUSAND || scale == MILLION) && a.current == 0
    ensures var b := TakeWords(a, SpellScaled(g, scale, bare));
            Idle(b, a.result, a.total + g * scale) && (g > 0 || a.inNumber ==> b.inNumber)
  {
    if g > 0 {
      var group := if bare && g == 1 then [] else SpellGroup(g);
      TakeWordsAppend(a, group, [Word(scale, scale)]);
      GroupTaken(a, g);
      TakeOne(TakeWords(a, group), Word(scale, scale));
    }
  }

  lemma Grouped(n: nat)
    requires n < 1_000_000_000
    ensures n == n / MILLION * MILLION + n / THOUSAND % THOUSAND * THOUSAND + n % THOUSAND
    ensures n / MILLION <= 999
  {
    assert n / MILLION == n / THOUSAND / THOUSAND;
  }

  /** The accumulator after a whole spelled number: nothing emitted, the last group pending. */
  lemma SpelledTaken(n: nat, bare: bool)
    requires n < 1_000_000_000
    ensures var a := TakeWords(START, SpellOut(n, bare));
            a.result == [] && a.inNumber && a.total + a.current == n && a.current == n % THOUSAND
  {
    if n == 0 {
      TakeOne(START, Word(0, UNIT));
    } else {
      hide TakeWords, SpellGroup, SpellScaled, Decimal, TakeWord;
      var m, t, u := n / MILLION, n / THOUSAND % THOUSAND, n % THOUSAND;
      Grouped(n);
      var x, y, z := SpellScaled(m, MILLION, bare), SpellScaled(t, THOUSAND, bare), SpellGroup(u);
      TakeWordsAppend(START, x + y, z);
      TakeWordsAppend(START, x, y);
      ScaledTaken(START, m, MILLION, bare);
      ScaledTaken(TakeWords(START, x), t, THOUSAND, bare);
      GroupTaken(TakeWords(TakeWords(START, x), y), u);
    }
  }

  lemma {:induction false} TokensAreWords(table: Table, tokens: seq<string>, k: nat)
    requires AreWords(table, tokens) && k <= |tokens|
    ensures TakeAll(table, START, tokens[..k]) == TakeWords(START, WordsOf(table, tokens)[..k])
  {
    if k > 0 {
      TokensAreWords(table, tokens, k - 1);
      var ws := WordsOf(table, tokens);
      assert tokens[..k][..k - 1] == tokens[..k - 1];
      assert ws[..k] == ws[..k - 1] + [ws[k - 1]];
      assert tokens[k - 1] in tokens;
      TakeWordsAppend(START, ws[..k - 1], [ws[k - 1]]);
      TakeOne(TakeWords(START, ws[..k - 1]), ws[k - 1]);
    }
  }

  /** Spelling any number below a thousand million and converting it back gives one token,
      the number's decimal, in whatever forms the table has for the words. */
  lemma SpellingRoundTrip(table: Table, tokens: seq<string>, n: nat, bare: bool)
    requires n < 1_000_000_000 && AreWords(table, tokens) && WordsOf(table, tokens) == SpellOut(n, bare)
    ensures Convert(table, tokens) == [Decimal(n)]
    ensures IsDigits(Decimal(n)) && Parse(Decimal(n)) == n
  {
    TokensAreWords(table, tokens, |tokens|);
    assert tokens[..|tokens|] == tokens && WordsOf(table, tokens)[..|tokens|] == WordsOf(table, tokens);
    SpelledTaken(n, bare);
    DecimalReads(n);
  }

  // ------------------------------------------------ numbers one after the other

  /** `w` is taken into the open number instead of starting a new one. */
  predicate JoinsOn(a: Acc, w: Word) {
    w.IsScale() || a.current == 0 || w.scale < a.prevScale
  }

  /** Neighbouring plain words have falling scales. */
  predicate Descends(ws: seq<Word>) {
    forall k :: 0 < k < |ws| ==> Falling(ws[k - 1], ws[k])
  }

  predicate Falling(v: Word, w: Word) {
    v.IsScale() || w.IsScale() || w.scale < v.scale
  }

  /** Such words never break up the number they join. */
  lemma {:induction false} Unbroken(a: Acc, ws: seq<Word>)
    requires Descends(ws) && ws != [] && JoinsOn(a, ws[0])
    ensures TakeWords(a, ws).result == a.result && TakeWords(a, ws).inNumber
    decreases |ws|
  {
    hide Decimal;
    var b, rest := TakeWord(a, ws[0]), ws[1..];
    if rest != [] {
      assert Falling(ws[0], ws[1]) && forall k :: 0 < k < |rest| ==> rest[k] == ws[k + 1];
      Unbroken(b, rest);
    }
  }

  lemma {:induction false} LastScale(a: Acc, ws: seq<Word>)
    requires ws != []
    ensures TakeWords(a, ws).prevScale == ws[|ws| - 1].scale
    decreases |ws|
  {
    hide Decimal;
    if |ws| > 1 { LastScale(TakeWord(a, ws[0]), ws[1..]); }
  }

  lemma {:induction false} TakeWordsPrepended(prefix: seq<string>, a: Acc, ws: seq<Word>)
    ensures var b := TakeWords(a, ws);
            TakeWords(a.(result := prefix + a.result), ws) == b.(result := prefix + b.result)
    decreases |ws|
  {
    if ws != [] {
      var b := TakeWord(a, ws[0]);
      assert TakeWord(a.(result := prefix + a.result), ws[0]) == b.(result := prefix + b.result);
      TakeWordsPrepended(prefix, b, ws[1..]);
    }
  }

  lemma DescendsAppend(x: seq<Word>, y: seq<Word>)
    requires Descends(x) && Descends(y)
    requires x != [] && y != [] ==> Falling(x[|x| - 1], y[0])
    ensures Descends(x + y)
  {
    hide Falling;
  }

  lemma ScaledDescends(g: nat, scale: nat, bare: bool)
    requires g <= 999 && (scale == THOUSAND || scale == MILLION)
    ensures Descends(SpellGroup(g)) && Descends(SpellScaled(g, scale, bare))
    ensures g > 0 ==> SpellScaled(g, scale, bare) != []
    ensures g > 0 ==> SpellGroup(g) != []
    ensures var ws := SpellScaled(g, scale, bare); ws != [] ==> ws[|ws| - 1].IsScale()
  {
    GroupDescends(g);
    var group, last := if bare && g == 1 then [] else SpellGroup(g), [Word(scale, scale)];
    assert g > 0 ==> SpellScaled(g, scale, bare) == group + last;
    assert g == 0 ==> SpellScaled(g, scale, bare) == [];
    hide SpellGroup, SpellScaled;
    DescendsAppend(group, last);
  }

  lemma GroupDescends(g: nat)
    requires g <= 999
    ensures Descends(SpellGroup(g)) && (g > 0 ==> SpellGroup(g) != [])
  {
    var rest := g % 100;
    var hundreds := if g >= 100 then [Word(g / 100 * 100, HUNDRED)] else [];
    var tens := if rest >= 10 then [Word(if rest <= 19 then rest else rest / 10 * 10, TEN)] else [];
    var units := if rest % 10 > 0 && !(10 <= rest <= 19) then [Word(rest % 10, UNIT)] else [];
    assert SpellGroup(g) == hundreds + (tens + units);
    hide SpellGroup;
    assert Descends(hundreds) && Descends(tens) && Descends(units);
    hide Descends;
    DescendsAppend(tens, units);
    DescendsAppend(hundreds, tens + units);
  }

  lemma SpellingDescends(n: nat, bare: bool)
    requires n < 1_000_000_000
    ensures SpellOut(n, bare) != [] && Descends(SpellOut(n, bare))
  {
    if n > 0 {
      var m, t, u := n / MILLION, n / THOUSAND % THOUSAND, n % THOUSAND;
      var x, y, z := SpellScaled(m, MILLION, bare), SpellScaled(t, THOUSAND, bare), SpellGroup(u);
      Grouped(n);
      ScaledDescends(m, MILLION, bare);
      ScaledDescends(t, THOUSAND, bare);
      ScaledDescends(u, THOUSAND, bare);
      hide SpellGroup, SpellScaled, Descends;
      DescendsAppend(x, y);
      DescendsAppend(x + y, z);
    }
  }

  /** A number to be spoken, with or without "one" before "thousand" and "million". */
  datatype Spoken = Spoken(n: nat, bare: bool) {
    predicate Ok() { n < 1_000_000_000 }

    function Words(): seq<Word>
      requires Ok()
    {
      SpellOut(n, bare)
    }
  }

  predicate AllOk(list: seq<Spoken>) {
    forall k :: 0 <= k < |list| ==> list[k].Ok()
  }

  function SpellAll(list: seq<Spoken>): seq<Word>
    requires AllOk(list)
  {
    if list == [] then [] else SpellAll(list[..|list| - 1]) + list[|list| - 1].Words()
  }

  function Decimals(list: seq<Spoken>): (r: seq<string>)
    ensures |r| == |list| && forall k :: 0 <= k < |r| ==> r[k] == Decimal(list[k].n)
  {
    seq(|list|, k requires 0 <= k < |list| => Decimal(list[k].n))
  }

  /** `second` starts afresh after `first`: the first ends in a group that is not zero, and
      the second starts with a plain word of at least the scale of the first's last word. */
  predicate StartsAfresh(first: Spoken, second: Spoken)
    requires first.Ok() && second.Ok()
  {
    var x, y := first.Words(), second.Words();
    x != [] && y != [] && first.n % THOUSAND > 0 && !y[0].IsScale() && y[0].scale >= x[|x| - 1].scale
  }

  ghost predicate AllAfresh(list: seq<Spoken>)
    requires AllOk(list)
  {
    forall k, l :: 0 <= k && l == k + 1 < |list| ==> StartsAfresh(list[k], list[l])
  }

  /** A word that starts a new number emits the open one and goes on as from the start. */
  lemma FreshStart(a: Acc, ws: seq<Word>)
    requires ws != [] && a.inNumber && !JoinsOn(a, ws[0])
    ensures var b := TakeWords(START, ws);
            TakeWords(a, ws) == b.(result := a.result + [Decimal(a.total + a.current)] + b.result)
  {
    hide Decimal;
    var first, prefix := TakeWord(START, ws[0]), a.result + [Decimal(a.total + a.current)];
    assert TakeWord(a, ws[0]) == first.(result := prefix + first.result);
    TakeWordsPrepended(prefix, first, ws[1..]);
  }

  /** A spelled number emits at most the number that was open before it. */
  lemma OneMore(a: Acc, s: Spoken)
    requires s.Ok() && a.inNumber
    ensures TakeWords(a, s.Words()).inNumber && |TakeWords(a, s.Words()).result| <= |a.result| + 1
  {
    var ws := s.Words();
    SpellingDescends(s.n, s.bare);
    SpelledTaken(s.n, s.bare);
    hide SpellOut, Decimal;
    if JoinsOn(a, ws[0]) {
      Unbroken(a, ws);
    } else {
      FreshStart(a, ws);
    }
  }

  /** The accumulator with `last` open and nothing else pending. */
  predicate Settled(a: Acc, last: Spoken)
    requires last.Ok()
  {
    var ws := last.Words();
    && a.inNumber && a.total + a.current == last.n && a.current == last.n % THOUSAND
    && ws != [] && a.prevScale == ws[|ws| - 1].scale
  }

  /** After a spelled number that starts afresh, or does not. */
  lemma TakeNext(a: Acc, first: Spoken, second: Spoken)
    requires first.Ok() && second.Ok() && Settled(a, first)
    ensures var b := TakeWords(a, second.Words());
            if StartsAfresh(first, second) then b.result == a.result + [Decimal(first.n)] && Settled(b, second)
            else b.result == a.result
  {
    var ws := second.Words();
    SpellingDescends(second.n, second.bare);
    SpelledTaken(second.n, second.bare);
    LastScale(a, ws);
    hide SpellOut, Decimal, TakeWords, TakeWord, Descends;
    if StartsAfresh(first, second) {
      FreshStart(a, ws);
    } else {
      Unbroken(a, ws);
    }
  }

  /** The accumulator after a list of spelled numbers. */
  ghost predicate AfterList(list: seq<Spoken>, a: Acc)
    requires list != [] && AllOk(list)
  {
    var n := |list| - 1;
    && a.inNumber && |a.result| <= n
    && if AllAfresh(list) then a.result == Decimals(list)[..n] && Settled(a, list[n]) else |a.result| < n
  }

  lemma AfterNext(list: seq<Spoken>, a: Acc)
    requires |list| > 1 && AllOk(list) && AfterList(list[..|list| - 1], a)
    ensures AfterList(list, TakeWords(a, list[|list| - 1].Words()))
  {
    hide SpellOut, Decimal, TakeWords, Settled, StartsAfresh, AllAfresh;
    var n := |list| - 1;
    var init, before, last := list[..n], list[n - 1], list[n];
    OneMore(a, last);
    AfreshSnoc(list);
    if AllAfresh(init) {
      TakeNext(a, before, last);
      assert Decimals(list)[..n] == Decimals(init)[..n - 1] + [Decimal(before.n)];
    }
  }

  lemma {:induction false} ListTaken(list: seq<Spoken>)
    requires list != [] && AllOk(list)
    ensures AfterList(list, TakeWords(START, SpellAll(list)))
    decreases |list|
  {
    hide *;
    if |list| == 1 {
      FirstTaken(list);
    } else {
      SpellStep(list);
      var init := list[..|list| - 1];
      ListTaken(init);
      AfterNext(list, TakeWords(START, SpellAll(init)));
    }
  }

  /** The first number of a list. */
  lemma FirstTaken(list: seq<Spoken>)
    requires |list| == 1 && AllOk(list)
    ensures AfterList(list, TakeWords(START, SpellAll(list)))
  {
    var last := list[0];
    assert SpellAll(list[..0]) == [];
    assert SpellAll(list) == [] + last.Words() == last.Words();
    SpelledTaken(last.n, last.bare);
    SpellingDescends(last.n, last.bare);
    LastScale(START, last.Words());
    hide SpellOut, SpellAll, Decimal, TakeWords, TakeWord, StartsAfresh, Descends;
  }

  lemma SpellStep(list: seq<Spoken>)
    requires list != [] && AllOk(list)
    ensures var n := |list| - 1;
            && list[n].Ok() && AllOk(list[..n])
            && TakeWords(START, SpellAll(list)) == TakeWords(TakeWords(START, SpellAll(list[..n])), list[n].Words())
  {
    var n := |list| - 1;
    TakeWordsAppend(START, SpellAll(list[..n]), list[n].Words());
    hide TakeWords, SpellOut;
  }

  lemma AfreshSnoc(list: seq<Spoken>)
    requires |list| > 1 && AllOk(list)
    ensures AllAfresh(list) <==> AllAfresh(list[..|list| - 1]) && StartsAfresh(list[|list| - 2], list[|list| - 1])
  {
    hide StartsAfresh;
    var init := list[..|list| - 1];
    if AllAfresh(init) && StartsAfresh(list[|list| - 2], list[|list| - 1]) {
      forall k, l | 0 <= k && l == k + 1 < |list| ensures StartsAfresh(list[k], list[l]) {
        if l < |init| { assert StartsAfresh(init[k], init[l]); }
      }
    }
    if AllAfresh(list) {
      forall k, l | 0 <= k && l == k + 1 < |init| ensures StartsAfresh(init[k], init[l]) {
        assert StartsAfresh(list[k], list[l]);
      }
    }
  }

  /** Any list of numbers spoken one after the other converts to their decimals exactly when
      each one starts afresh after the one before; otherwise some run together and there are
      fewer tokens than numbers. */
  lemma NumbersStayApart(table: Table, tokens: seq<string>, list: seq<Spoken>)
    requires list != [] && AllOk(list) && AreWords(table, tokens) && WordsOf(table, tokens) == SpellAll(list)
    ensures Convert(table, tokens) == Decimals(list) <==> AllAfresh(list)
    ensures !AllAfresh(list) ==> |Convert(table, tokens)| < |list|
  {
    hide *;
    ListTaken(list);
    EmittedFrom(list, TakeWords(START, SpellAll(list)));
    ConvertWords(table, tokens);
  }

  /** What is emitted when the list ends. */
  lemma EmittedFrom(list: seq<Spoken>, a: Acc)
    requires list != [] && AllOk(list) && AfterList(list, a)
    ensures a.inNumber
    ensures var tokens := a.result + [Decimal(a.total + a.current)];
            && (tokens == Decimals(list) <==> AllAfresh(list))
            && (!AllAfresh(list) ==> |tokens| < |list|)
  {
    hide AllAfresh, Decimal;
    var n := |list| - 1;
    assert Decimals(list) == Decimals(list)[..n] + [Decimal(list[n].n)];
  }

  lemma ConvertWords(table: Table, tokens: seq<string>)
    requires AreWords(table, tokens) && TakeWords(START, WordsOf(table, tokens)).inNumber
    ensures var a := TakeWords(START, WordsOf(table, tokens));
            Convert(table, tokens) == a.result + [Decimal(a.total + a.current)]
  {
    TokensAreWords(table, tokens, |tokens|);
    assert tokens[..|tokens|] == tokens && WordsOf(table, tokens)[..|tokens|] == WordsOf(table, tokens);
  }

  /** A zero before another number leaves no trace: spoken "zero, six hundred" converts to
      600 alone, because a pending zero never starts a new number. */
  lemma LeadingZeroSwallowed(table: Table, zero: string, hundreds: string)
    requires zero in table && table[zero] == Word(0, UNIT)
    requires hundreds in table && table[hundreds] == Word(600, HUNDRED)
    ensures Convert(table, [zero, hundreds]) == [Decimal(600)]
  {
    assert [zero, hundreds][..1] == [zero] && [zero][..0] == [];
    assert TakeAll(table, START, [zero]) == Acc([], 0, 0, UNIT, true);
    assert TakeAll(table, START, [zero, hundreds]) == Acc([], 600, 0, HUNDRED, true);
  }

  // -------------------------------------------------------- merging digit tokens

  function DigitRun(tokens: seq<string>): (n: nat)
    ensures n <= |tokens|
    ensures forall k :: 0 <= k < n ==> IsDigits(tokens[k])
    ensures n < |tokens| ==> !IsDigits(tokens[n])
  {
    if tokens == [] || !IsDigits(tokens[0]) then 0 else 1 + DigitRun(tokens[1..])
  }

  function Join(tokens: seq<string>): string {
    if tokens == [] then "" else tokens[0] + Join(tokens[1..])
  }

  predicate AllShort(tokens: seq<string>) {
    forall token :: token in tokens ==> |token| <= 3
  }

  /** One group of digit tokens, merged if all are short. */
  function MergeGroup(tokens: seq<string>): seq<string> {
    if AllShort(tokens) then [Join(tokens)] else tokens
  }

  function Merge(tokens: seq<string>): seq<string>
    decreases |tokens|
  {
    if tokens == [] then []
    else if IsDigits(tokens[0]) then
      assert DigitRun(tokens) > 0;
      MergeGroup(tokens[..DigitRun(tokens)]) + Merge(tokens[DigitRun(tokens)..])
    else [tokens[0]] + Merge(tokens[1..])
  }

  lemma {:induction false} RunIs(tokens: seq<string>, n: nat)
    requires n <= |tokens| && (forall k :: 0 <= k < n ==> IsDigits(tokens[k]))
             && (n < |tokens| ==> !IsDigits(tokens[n]))
    ensures DigitRun(tokens) == n
    decreases n
  {
    if n > 0 { RunIs(tokens[1..], n - 1); }
  }

  function NonDigits(tokens: seq<string>): seq<string> {
    if tokens == [] then [] else (if IsDigits(tokens[0]) then [] else [tokens[0]]) + NonDigits(tokens[1..])
  }

  lemma {:induction false} JoinAppend(x: seq<string>, y: seq<string>)
    ensures Join(x + y) == Join(x) + Join(y)
    decreases |x|
  {
    if x == [] {
      assert x + y == y;
    } else {
      assert (x + y)[1..] == x[1..] + y;
      JoinAppend(x[1..], y);
    }
  }

  lemma {:induction false} JoinDigits(tokens: seq<string>)
    requires forall k :: 0 <= k < |tokens| ==> IsDigits(tokens[k])
    ensures NonDigits(tokens) == [] && (tokens != [] ==> IsDigits(Join(tokens)))
    decreases |tokens|
  {
    if tokens != [] {
      JoinDigits(tokens[1..]);
      if |tokens| == 1 { assert tokens[1..] == []; }
    }
  }

  lemma {:induction false} NonDigitsAppend(x: seq<string>, y: seq<string>)
    ensures NonDigits(x + y) == NonDigits(x) + NonDigits(y)
    decreases |x|
  {
    if x == [] {
      assert x + y == y;
    } else {
      assert (x + y)[1..] == x[1..] + y;
      NonDigitsAppend(x[1..], y);
    }
  }

  /** A group of digits followed by something that does not start with digits. */
  lemma MergeRun(group: seq<string>, rest: seq<string>)
    requires group != [] && (forall k :: 0 <= k < |group| ==> IsDigits(group[k])) && (rest != [] ==> !IsDigits(rest[0]))
    ensures Merge(group + rest) == MergeGroup(group) + Merge(rest)
  {
    var tokens, n := group + rest, |group|;
    RunIs(tokens, n);
    assert tokens[..n] == group && tokens[n..] == rest;
  }

  lemma JoinOne(token: string)
    ensures Join([token]) == token
    ensures MergeGroup([token]) == [token]
  {
    assert Join([token]) == token + Join([]);
    assert token + [] == token;
  }

  /** A run of digit tokens becomes one token if none is longer than three digits; otherwise
      all of them stay as they are. */
  lemma MergeDecides(run: seq<string>)
    requires run != [] && forall k :: 0 <= k < |run| ==> IsDigits(run[k])
    ensures (forall k :: 0 <= k < |run| ==> |run[k]| <= 3) ==> Merge(run) == [Join(run)]
    ensures (exists k :: 0 <= k < |run| && |run[k]| > 3) ==> Merge(run) == run
  {
    assert run + [] == run;
    MergeRun(run, []);
    MergeNothing();
    assert (forall k :: 0 <= k < |run| ==> |run[k]| <= 3) <==> AllShort(run);
  }

  /** Merging keeps every character, every token that is not digits, and the first token's
      kind. */
  lemma {:induction false} MergePreserves(tokens: seq<string>)
    ensures Join(Merge(tokens)) == Join(tokens)
    ensures NonDigits(Merge(tokens)) == NonDigits(tokens)
    ensures tokens != [] && !IsDigits(tokens[0]) ==> Merge(tokens) != [] && Merge(tokens)[0] == tokens[0]
    decreases |tokens|
  {
    if tokens != [] {
      var n := if IsDigits(tokens[0]) then DigitRun(tokens) else 1;
      var group, rest := tokens[..n], tokens[n..];
      assert tokens == group + rest;
      var merged := if IsDigits(tokens[0]) then MergeGroup(group) else group;
      MergePreserves(rest);
      JoinAppend(group, rest);
      JoinAppend(merged, Merge(rest));
      NonDigitsAppend(group, rest);
      NonDigitsAppend(merged, Merge(rest));
      if IsDigits(tokens[0]) && AllShort(group) {
        JoinDigits(group);
        JoinDigits([Join(group)]);
        JoinOne(Join(group));
      }
    }
  }

  /** Merging twice is merging once. */
  lemma {:induction false} MergeIdempotent(tokens: seq<string>)
    ensures Merge(Merge(tokens)) == Merge(tokens)
    decreases |tokens|
  {
    if tokens == [] {
    } else if !IsDigits(tokens[0]) {
      MergeIdempotent(tokens[1..]);
      assert Merge(tokens)[1..] == Merge(tokens[1..]);
    } else {
      var n := DigitRun(tokens);
      var group, rest := tokens[..n], tokens[n..];
      MergeIdempotent(rest);
      MergePreserves(rest);
      if AllShort(group) {
        JoinDigits(group);
        MergeRun([Join(group)], Merge(rest));
        JoinOne(Join(group));
      } else {
        MergeRun(group, Merge(rest));
      }
    }
  }

  /** A token that is not digits separates merging on its two sides. */
  lemma {:induction false} MergeSplits(before: seq<string>, token: string, after: seq<string>)
    requires !IsDigits(token)
    ensures Merge(before + [token] + after) == Merge(before) + [token] + Merge(after)
    decreases |before|
  {
    hide Merge, Join, DigitRun, IsDigits, MergeGroup;
    if before == [] {
      assert before + [token] + after == [token] + after;
      MergeNothing();
      MergePlain(token, after);
    } else {
      var n := if IsDigits(before[0]) then DigitRun(before) else 1;
      var group, tail := before[..n], before[n..];
      var rest := tail + [token] + after;
      assert before == group + tail && before + [token] + after == group + rest;
      MergeSplits(tail, token, after);
      if IsDigits(before[0]) {
        MergeRun(group, tail);
        MergeRun(group, rest);
      } else {
        assert group == [before[0]];
        MergePlain(before[0], tail);
        MergePlain(before[0], rest);
      }
    }
  }

  lemma MergePlain(token: string, rest: seq<string>)
    requires !IsDigits(token)
    ensures Merge([token] + rest) == [token] + Merge(rest)
  {
    assert ([token] + rest)[1..] == rest;
  }

  /** The longest stretch of digit tokens from position `i` on. */
  method TakeGroup(tokens: seq<string>, i: nat) returns (group: seq<string>, j: nat)
    requires i < |tokens| && IsDigits(tokens[i])
    ensures i < j <= |tokens| && group == tokens[i..j]
    ensures forall k :: 0 <= k < |group| ==> IsDigits(group[k])
    ensures j < |tokens| ==> !IsDigits(tokens[j])
  {
    hide IsDigits;
    j, group := i, [];
    while j < |tokens| && IsDigits(tokens[j])
      invariant i <= j <= |tokens| && group == tokens[i..j]
      invariant forall k :: 0 <= k < |group| ==> IsDigits(group[k])
    {
      group := group + [tokens[j]];
      j := j + 1;
    }
  }

  method MergeDigitGroups(tokens: seq<string>) returns (result: seq<string>)
    ensures result == Merge(tokens)
  {
    hide Merge, Join, DigitRun, IsDigits, AllShort;
    result := [];
    var i := 0;
    assert tokens[0..] == tokens;
    while i < |tokens|
      invariant 0 <= i <= |tokens|
      invariant result + Merge(tokens[i..]) == Merge(tokens)
    {
      if IsDigits(tokens[i]) {
        var group, j := TakeGroup(tokens, i);
        assert tokens[i..] == group + tokens[j..];
        MergeRun(group, tokens[j..]);
        if AllShort(group) {
          result := result + [Join(group)];
        } else {
          result := result + group;
        }
        i := j;
      } else {
        assert tokens[i..] == [tokens[i]] + tokens[i + 1..];
        MergePlain(tokens[i], tokens[i + 1..]);
        result := result + [tokens[i]];
        i := i + 1;
      }
    }
    MergeNothing();
    assert tokens[i..] == [];
  }

  lemma MergeNothing()
    ensures Merge([]) == []
  {
  }

  // ----------------------------------------------------- conversion then merging

  lemma {:induction false} TakePrepended(table: Table, prefix: seq<string>, tokens: seq<string>)
    ensures var a := TakeAll(table, START, tokens);
            TakeAll(table, START.(result := prefix), tokens) == a.(result := prefix + a.result)
    decreases |tokens|
  {
    if tokens != [] {
      TakePrepended(table, prefix, tokens[..|tokens| - 1]);
    }
  }

  lemma {:induction false} TakeAllAppend(table: Table, a: Acc, x: seq<string>, y: seq<string>)
    ensures TakeAll(table, a, x + y) == TakeAll(table, TakeAll(table, a, x), y)
    decreases |y|
  {
    if y == [] {
      assert x + y == x;
    } else {
      assert (x + y)[..|x + y| - 1] == x + y[..|y| - 1];
      TakeAllAppend(table, a, x, y[..|y| - 1]);
    }
  }

  /** A token that is no number word separates conversion on its two sides. */
  lemma ConvertSplits(table: Table, before: seq<string>, token: string, after: seq<string>)
    requires token !in table
    ensures Convert(table, before + [token] + after) == Convert(table, before) + [token] + Convert(table, after)
  {
    TakeAllAppend(table, START, before + [token], after);
    assert (before + [token])[..|before|] == before;
    TakePrepended(table, Convert(table, before) + [token], after);
  }

  lemma NumbersOnly(table: Table, pieces: seq<Piece>)
    requires AreWords(table, AllTokens(pieces)) && forall p :: p in pieces ==> PieceOk(table, p)
    ensures forall p :: p in pieces ==> p.Number?
  {
    forall p | p in pieces ensures p.Number? {
      PiecesWithin(pieces, p);
      assert PieceTokens(p) != [] ==> PieceTokens(p)[0] in AllTokens(pieces);
    }
  }

  lemma RunNumbers(table: Table, run: seq<string>)
    requires TableOk(table) && run != [] && AreWords(table, run) && NoScaleWords(table, run)
    ensures var numbers := Convert(table, run);
            numbers != [] && AllShort(numbers) && forall k :: 0 <= k < |numbers| ==> IsDigits(numbers[k])
  {
    var numbers := Convert(table, run);
    var pieces := EmittedNumbersAreShort(table, run);
    NumbersOnly(table, pieces);
    forall k | 0 <= k < |numbers| ensures IsDigits(numbers[k]) && |numbers[k]| <= 3 {
      assert pieces[k] in pieces;
      assert numbers[k] == RenderAll(table, pieces)[k];
    }
    assert pieces != [];
  }

  /** A token that is neither a number word nor digits. */
  predicate Separates(table: Table, token: string) {
    token !in table && !IsDigits(token)
  }

  /** Such a token separates the whole normalization on its two sides. */
  lemma NormalizeSplits(table: Table, before: seq<string>, token: string, after: seq<string>)
    requires Separates(table, token)
    ensures Merge(Convert(table, before + [token] + after)) ==
            Merge(Convert(table, before)) + [token] + Merge(Convert(table, after))
  {
    hide Convert, Merge;
    ConvertSplits(table, before, token, after);
    MergeSplits(Convert(table, before), token, Convert(table, after));
  }

  lemma NothingConverted(table: Table)
    ensures Merge(Convert(table, [])) == []
  {
  }

  /** A text that ends with a separating token, or is empty, does not affect what follows. */
  lemma NormalizeAfter(table: Table, before: seq<string>, rest: seq<string>)
    requires before != [] ==> Separates(table, before[|before| - 1])
    ensures Merge(Convert(table, before + rest)) == Merge(Convert(table, before)) + Merge(Convert(table, rest))
  {
    hide Convert, Merge;
    NothingConverted(table);
    if before == [] {
      assert before + rest == rest;
    } else {
      var init, token := before[..|before| - 1], before[|before| - 1];
      assert before == init + [token] + [] && before + rest == init + [token] + rest;
      NormalizeSplits(table, init, token, []);
      NormalizeSplits(table, init, token, rest);
    }
  }

  /** ... nor is it affected by what starts with one, or is empty. */
  lemma NormalizeBefore(table: Table, rest: seq<string>, after: seq<string>)
    requires after != [] ==> Separates(table, after[0])
    ensures Merge(Convert(table, rest + after)) == Merge(Convert(table, rest)) + Merge(Convert(table, after))
  {
    hide Convert, Merge;
    NothingConverted(table);
    if after == [] {
      assert rest + after == rest;
    } else {
      var token, tail := after[0], after[1..];
      assert after == [] + [token] + tail && rest + after == rest + [token] + tail;
      NormalizeSplits(table, rest, token, tail);
      NormalizeSplits(table, [], token, tail);
    }
  }

  lemma RunAlone(table: Table, run: seq<string>)
    requires TableOk(table) && run != [] && AreWords(table, run) && NoScaleWords(table, run)
    ensures IsDigits(Join(Convert(table, run))) && Merge(Convert(table, run)) == [Join(Convert(table, run))]
  {
    hide Convert, Merge, Join;
    var numbers := Convert(table, run);
    RunNumbers(table, run);
    JoinDigits(numbers);
    assert numbers + [] == numbers;
    MergeRun(numbers, []);
    MergeNothing();
  }

  /** A scale-free run of number words always ends up as one digit token, and the text on its
      two sides is unaffected. On each side the run is at the end of the text or next to a
      token that is neither a number word nor digits. */
  lemma RunBecomesOneToken(table: Table, before: seq<string>, run: seq<string>, after: seq<string>)
    requires TableOk(table) && run != [] && AreWords(table, run) && NoScaleWords(table, run)
    requires before != [] ==> Separates(table, before[|before| - 1])
    requires after != [] ==> Separates(table, after[0])
    ensures IsDigits(Join(Convert(table, run)))
    ensures Merge(Convert(table, before + run + after)) ==
            Merge(Convert(table, before)) + [Join(Convert(table, run))] + Merge(Convert(table, after))
  {
    hide Convert, Merge, Join;
    assert before + run + after == before + (run + after);
    NormalizeAfter(table, before, run + after);
    NormalizeBefore(table, run, after);
    RunAlone(table, run);
  }
}
