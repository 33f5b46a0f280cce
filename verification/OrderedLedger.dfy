/** The stricter ledger: rows are committed in manifest order although recognitions
  finish in any order, a resume refuses an unfinished line instead of dropping it, and
  an auditor may read the file at any moment.
  */
module OrderedLedger {
  import opened Options
  import opened Framing
  import opened Encoding

  datatype Sample = Sample(id: string, path: string, reference: string, sha256: string, language: string,
                           dataset: string, split: string, condition: Option<string>)
  datatype Status = Ok | Failed
  datatype Row = Row(sample: Sample, status: Status, error: Option<string>, hypothesis: string, scores: seq<nat>)
  datatype Response = Text(text: string) | Error(message: string)

  datatype Setup = Setup(samples: seq<Sample>, score: (string, string) -> seq<nat>,
                         encode: Row -> seq<byte>, decode: seq<byte> -> Option<Row>)
  {
    ghost predicate Valid() {
      && samples != []
      && (forall i, j :: 0 <= i < j < |samples| ==> samples[i].id != samples[j].id)
      && (forall row :: NoBreaks(encode(row)) && decode(encode(row)) == Some(row))
    }

    function RowFor(sample: Sample, response: Response): Row {
      match response
      case Text(text) => Row(sample, Ok, None, text, score(sample.reference, text))
      case Error(message) => Row(sample, Failed, Some(message), "", score(sample.reference, ""))
    }

    function Record(row: Row): seq<byte> {
      encode(row) + [NEWLINE]
    }
  }

  /** What a row says about the recognition behind it. */
  ghost predicate Tells(row: Row, score: (string, string) -> seq<nat>, sample: Sample, response: Response) {
    && row.sample == sample
    && (row.status == Failed <==> response.Error?)
    && (response.Error? ==> row.error == Some(response.message) && row.hypothesis == "")
    && (response.Text? ==> row.error == None && row.hypothesis == response.text)
    && row.scores == score(row.sample.reference, row.hypothesis)
  }

  // ------------------------------------------------------ valid set-ups exist

  function SampleCodes(s: Sample): seq<seq<nat>> {
    [TextCodes(s.id), TextCodes(s.path), TextCodes(s.reference), TextCodes(s.sha256), TextCodes(s.language),
     TextCodes(s.dataset), TextCodes(s.split), OptionCodes(s.condition)]
  }

  function RowCodes(row: Row): seq<seq<nat>> {
    [[if row.status == Ok then 0 else 1], OptionCodes(row.error), TextCodes(row.hypothesis), row.scores] +
      SampleCodes(row.sample)
  }

  lemma SampleCodesInjective(s: Sample, t: Sample)
    requires SampleCodes(s) == SampleCodes(t)
    ensures s == t
  {
    var x, y := SampleCodes(s), SampleCodes(t);
    forall k | 0 <= k < 8 ensures x[k] == y[k] { }
    TextCodesInjective(s.id, t.id);
    TextCodesInjective(s.path, t.path);
    TextCodesInjective(s.reference, t.reference);
    TextCodesInjective(s.sha256, t.sha256);
    TextCodesInjective(s.language, t.language);
    TextCodesInjective(s.dataset, t.dataset);
    TextCodesInjective(s.split, t.split);
    OptionCodesInjective(s.condition, t.condition);
  }

  lemma RowCodesInjective(a: Row, b: Row)
    requires RowCodes(a) == RowCodes(b)
    ensures a == b
  {
    var x, y := RowCodes(a), RowCodes(b);
    assert x[4..] == SampleCodes(a.sample) && y[4..] == SampleCodes(b.sample);
    SampleCodesInjective(a.sample, b.sample);
    forall k | 0 <= k < 4 ensures x[k] == y[k] { }
    OptionCodesInjective(a.error, b.error);
    TextCodesInjective(a.hypothesis, b.hypothesis);
    assert x[0][0] == y[0][0];
  }

  ghost function DecodeRow(line: seq<byte>): Option<Row> {
    if exists row :: TableBytes(RowCodes(row)) == line then
      var row :| TableBytes(RowCodes(row)) == line; Some(row)
    else None
  }

  /** Every non-empty manifest with distinct ids and every scorer occur in a valid set-up. */
  lemma ValidSetupExists(samples: seq<Sample>, score: (string, string) -> seq<nat>) returns (setup: Setup)
    requires samples != [] && forall i, j :: 0 <= i < j < |samples| ==> samples[i].id != samples[j].id
    ensures setup.Valid() && setup.samples == samples && setup.score == score
  {
    setup := Setup(samples, score, (row: Row) => TableBytes(RowCodes(row)), (line: seq<byte>) => DecodeRow(line));
    forall row: Row ensures NoBreaks(setup.encode(row)) && setup.decode(setup.encode(row)) == Some(row) {
      TableUnbroken(RowCodes(row));
      var found := DecodeRow(setup.encode(row)).value;
      TableBytesInjective(RowCodes(found), RowCodes(row));
      RowCodesInjective(found, row);
    }
  }

  // ---------------------------------------------------------------- reading back

  function DecodeAll(setup: Setup, lines: seq<seq<byte>>): Option<seq<Row>> {
    if lines == [] then Some([]) else
    var init, last := DecodeAll(setup, lines[..|lines| - 1]), setup.decode(lines[|lines| - 1]);
    if init.None? || last.None? then None else Some(init.value + [last.value])
  }

  function RowsIn(setup: Setup, data: seq<byte>): Option<seq<Row>> {
    DecodeAll(setup, SplitLines(data))
  }

  /** The resume's check of one row. */
  ghost predicate RowMatches(setup: Setup, sample: Sample, row: Row) {
    && row.sample == sample
    && (row.status == Failed ==> row.hypothesis == "")
    && row.scores == setup.score(sample.reference, row.hypothesis)
  }

  /** A resume proceeds with `rows`. */
  ghost predicate Resumes(setup: Setup, file: seq<byte>, rows: seq<Row>) {
    && EndsCommitted(file)
    && RowsIn(setup, file) == Some(rows)
    && |rows| <= |setup.samples|
    && forall k :: 0 <= k < |rows| ==> RowMatches(setup, setup.samples[k], rows[k])
  }

  ghost predicate CanResume(setup: Setup, file: seq<byte>) {
    exists rows :: Resumes(setup, file, rows)
  }

  lemma {:induction false} DecodePrefix(setup: Setup, lines: seq<seq<byte>>, k: nat)
    requires k <= |lines| && DecodeAll(setup, lines).Some?
    ensures |DecodeAll(setup, lines).value| == |lines|
    ensures DecodeAll(setup, lines[..k]) == Some(DecodeAll(setup, lines).value[..k])
    decreases |lines|
  {
    if k == |lines| {
      assert lines[..k] == lines;
      if lines != [] { DecodePrefix(setup, lines[..k - 1], k - 1); }
      assert DecodeAll(setup, lines).value[..k] == DecodeAll(setup, lines).value;
    } else {
      var init, last := lines[..|lines| - 1], setup.decode(lines[|lines| - 1]);
      DecodePrefix(setup, init, k);
      assert init[..k] == lines[..k];
      assert (DecodeAll(setup, init).value + [last.value])[..k] == DecodeAll(setup, init).value[..k];
    }
  }

  lemma AppendedRow(setup: Setup, base: seq<byte>, row: Row)
    requires setup.Valid() && EndsCommitted(base) && RowsIn(setup, base).Some?
    ensures EndsCommitted(base + setup.Record(row))
    ensures RowsIn(setup, base + setup.Record(row)) == Some(RowsIn(setup, base).value + [row])
  {
    assert NoBreaks(setup.encode(row)) && setup.decode(setup.encode(row)) == Some(row);
    AppendRecord(base, setup.encode(row));
    var lines := SplitLines(base);
    assert (lines + [setup.encode(row)])[..|lines|] == lines;
  }

  // ------------------------------------------------------------------- protocol

  /** `finished` holds recognitions that are done but not yet their turn; `append` is the
      row being written and its remaining bytes. */
  datatype Process =
    | Down
    | Up(rows: seq<Row>, finished: map<nat, Row>, append: Option<(Row, seq<byte>)>)

  /** `published`: the final result file exists. */
  datatype State = State(file: seq<byte>, process: Process, published: bool)

  /** A resume that still has samples to recognize. */
  ghost predicate Boot(setup: Setup, s: State, t: State, rows: seq<Row>) {
    && s.process.Down? && Resumes(setup, s.file, rows) && |rows| < |setup.samples|
    && t == s.(process := Up(rows, map[], None))
  }

  /** A resume that finds the ledger complete publishes the result it reconstructs. */
  ghost predicate Reconstruct(setup: Setup, s: State, t: State, rows: seq<Row>) {
    && s.process.Down? && Resumes(setup, s.file, rows) && |rows| == |setup.samples|
    && t == s.(published := true)
  }

  ghost predicate Recognize(setup: Setup, s: State, t: State, i: nat, response: Response) {
    && s.process.Up? && |s.process.rows| <= i < |setup.samples| && i !in s.process.finished
    && t == s.(process := s.process.(finished := s.process.finished[i := setup.RowFor(setup.samples[i], response)]))
  }

  /** Results are taken in source order, whatever order they finished in. */
  ghost predicate Emit(setup: Setup, s: State, t: State) {
    && s.process.Up? && s.process.append.None?
    && var i := |s.process.rows|;
    && i in s.process.finished
    && t == s.(process := s.process.(append := Some((s.process.finished[i], setup.Record(s.process.finished[i])))))
  }

  ghost predicate Write(s: State, t: State, n: nat) {
    && s.process.Up? && s.process.append.Some?
    && var (row, remaining) := s.process.append.value;
    && 0 < n <= |remaining|
    && t == s.(file := s.file + remaining[..n], process := s.process.(append := Some((row, remaining[n..]))))
  }

  ghost predicate Commit(s: State, t: State) {
    && s.process.Up? && s.process.append.Some? && s.process.append.value.1 == []
    && t == s.(process := s.process.(append := None, rows := s.process.rows + [s.process.append.value.0]))
  }

  ghost predicate Publish(setup: Setup, s: State, t: State) {
    && s.process.Up? && s.process.append.None? && |s.process.rows| == |setup.samples|
    && t == State(s.file, Down, true)
  }

  ghost predicate Crash(s: State, t: State) {
    s.process.Up? && t == s.(process := Down)
  }

  ghost predicate Step(setup: Setup, s: State, t: State) {
    || (exists rows :: Boot(setup, s, t, rows))
    || (exists rows :: Reconstruct(setup, s, t, rows))
    || (exists i, response :: Recognize(setup, s, t, i, response))
    || Emit(setup, s, t)
    || (exists n: nat :: Write(s, t, n))
    || Commit(s, t)
    || Publish(setup, s, t)
    || Crash(s, t)
  }

  ghost predicate IsTrace(setup: Setup, run: seq<State>) {
    run != [] && forall k :: 0 < k < |run| ==> Step(setup, run[k - 1], run[k])
  }

  /** A run from scratch. */
  ghost predicate IsRun(setup: Setup, run: seq<State>) {
    IsTrace(setup, run) && run[0] == State([], Down, false)
  }

  // ------------------------------------------------------------------ invariant

  /** `row` is what this program produces for sample `k`, whatever the response. */
  ghost predicate Produced(setup: Setup, k: nat, row: Row) {
    k < |setup.samples| && exists response :: row == setup.RowFor(setup.samples[k], response)
  }

  ghost predicate AllProduced(setup: Setup, finished: map<nat, Row>) {
    forall i :: i in finished ==> Produced(setup, i, finished[i])
  }

  ghost predicate SourceOrder(setup: Setup, rows: seq<Row>) {
    forall k :: 0 <= k < |rows| ==> Produced(setup, k, rows[k])
  }

  function CommittedRows(setup: Setup, file: seq<byte>): Option<seq<Row>> {
    RowsIn(setup, Durable(file))
  }

  function Tail(file: seq<byte>): seq<byte> {
    file[Committed(file)..]
  }

  /** The beginning, without its newline, of the line for sample `k`. */
  ghost predicate PartOfLine(setup: Setup, k: nat, tail: seq<byte>) {
    exists row: Row :: Produced(setup, k, row) && tail <= setup.encode(row)
  }

  /** Complete lines for the first samples in source order, then at most one unfinished
      line, which belongs to the next sample. */
  ghost predicate SourceOrderFile(setup: Setup, file: seq<byte>) {
    && CommittedRows(setup, file).Some?
    && SourceOrder(setup, CommittedRows(setup, file).value)
    && (Tail(file) != [] ==> PartOfLine(setup, |CommittedRows(setup, file).value|, Tail(file)))
  }

  ghost predicate ProcessInv(setup: Setup, file: seq<byte>, p: Process)
    requires p.Up?
  {
    && SourceOrder(setup, p.rows)
    && AllProduced(setup, p.finished)
    && match p.append
       case None => EndsCommitted(file) && RowsIn(setup, file) == Some(p.rows)
       case Some((row, remaining)) =>
         var record := setup.Record(row);
         && Produced(setup, |p.rows|, row)
         && |remaining| <= |record| && remaining == record[|record| - |remaining|..]
         && if remaining == [] then EndsCommitted(file) && RowsIn(setup, file) == Some(p.rows + [row])
            else CommittedRows(setup, file) == Some(p.rows) && Tail(file) == record[..|record| - |remaining|]
  }

  ghost predicate Inv(setup: Setup, s: State) {
    && SourceOrderFile(setup, s.file)
    && (s.published ==>
          && s.process.Down? && EndsCommitted(s.file)
          && |CommittedRows(setup, s.file).value| == |setup.samples|)
    && (s.process.Up? ==> ProcessInv(setup, s.file, s.process))
  }

  lemma WholeFile(setup: Setup, file: seq<byte>)
    requires EndsCommitted(file)
    ensures Durable(file) == file && Tail(file) == [] && CommittedRows(setup, file) == RowsIn(setup, file)
  {
    DurableEndsCommitted(file);
  }

  /** A committed file with `m` bytes of one more record. */
  lemma PartlyWritten(setup: Setup, base: seq<byte>, row: Row, m: nat)
    requires setup.Valid() && EndsCommitted(base) && RowsIn(setup, base).Some?
    requires m <= |setup.Record(row)|
    ensures var file := base + setup.Record(row)[..m];
            if m == |setup.Record(row)| then
              EndsCommitted(file) && RowsIn(setup, file) == Some(RowsIn(setup, base).value + [row])
            else
              Durable(file) == base && Tail(file) == setup.Record(row)[..m] <= setup.encode(row)
  {
    var record := setup.Record(row);
    assert NoBreaks(setup.encode(row));
    if m == |record| {
      assert record[..m] == record;
      AppendedRow(setup, base, row);
    } else {
      AppendPart(base, setup.encode(row), m);
      assert record[..m] == setup.encode(row)[..m];
      var file := base + record[..m];
      assert file[|base|..] == record[..m];
    }
  }

  /** What one write call leaves in the file. */
  lemma WriteBytes(setup: Setup, file: seq<byte>, rows: seq<Row>, row: Row, record: seq<byte>, remaining: seq<byte>,
                   n: nat)
    requires setup.Valid() && record == setup.Record(row) && 0 < n <= |remaining| <= |record|
    requires CommittedRows(setup, file) == Some(rows)
    requires Tail(file) == record[..|record| - |remaining|] && remaining == record[|record| - |remaining|..]
    ensures var after, left := file + remaining[..n], |remaining| - n;
            if left == 0 then EndsCommitted(after) && RowsIn(setup, after) == Some(rows + [row])
            else
              CommittedRows(setup, after) == Some(rows)
              && Tail(after) == record[..|record| - left] <= setup.encode(row)
  {
    hide *;
    var base, k := Durable(file), |record| - |remaining|;
    SplitAtDurable(file);
    WholeFile(setup, base);
    assert CommittedRows(setup, file) == RowsIn(setup, base) by { CommittedIs(setup, file); }
    assert record[..k + n] == record[..k] + remaining[..n];
    assert file + remaining[..n] == base + record[..k + n];
    PartlyWritten(setup, base, row, k + n);
    CommittedIs(setup, file + remaining[..n]);
  }

  lemma CommittedIs(setup: Setup, file: seq<byte>)
    ensures CommittedRows(setup, file) == RowsIn(setup, Durable(file))
  {
  }

  lemma WholeAfterWrite(setup: Setup, file: seq<byte>)
    ensures EndsCommitted(file) ==> CommittedRows(setup, file) == RowsIn(setup, file) && Tail(file) == []
  {
    if EndsCommitted(file) { WholeFile(setup, file); }
  }

  lemma BeforeWrite(setup: Setup, s: State)
    requires Inv(setup, s) && s.process.Up? && s.process.append.Some? && s.process.append.value.1 != []
    ensures var (row, remaining) := s.process.append.value;
            var record := setup.Record(row);
            && |remaining| <= |record| && remaining == record[|record| - |remaining|..]
            && CommittedRows(setup, s.file) == Some(s.process.rows)
            && Tail(s.file) == record[..|record| - |remaining|]
  {
  }

  /** One write call: either the newline is still missing, or the file now ends with
      exactly one more row. */
  lemma WriteKeepsInv(setup: Setup, s: State, t: State, n: nat)
    requires setup.Valid() && Inv(setup, s) && Write(s, t, n)
    ensures Inv(setup, t)
    ensures CommittedRows(setup, t.file) == CommittedRows(setup, s.file) ||
            CommittedRows(setup, t.file) == Some(CommittedRows(setup, s.file).value + [s.process.append.value.0])
  {
    hide *;
    WriteState(s, t, n);
    var p := s.process;
    var (row, remaining) := p.append.value;
    BeforeWrite(setup, s);
    var record, rest := setup.Record(row), remaining[n..];
    EndOfEnd(record, remaining, n);
    OrderedProcess(setup, s);
    WriteBytes(setup, s.file, p.rows, row, record, remaining, n);
    WholeAfterWrite(setup, t.file);
    AfterWrite(setup, t.file, t.process, row, rest);
    ToInv(setup, t);
  }

  lemma WriteState(s: State, t: State, n: nat)
    requires Write(s, t, n)
    ensures s.process.Up? && s.process.append.Some?
    ensures var (row, remaining) := s.process.append.value;
            && 0 < n <= |remaining|
            && t.file == s.file + remaining[..n] && t.published == s.published
            && t.process == s.process.(append := Some((row, remaining[n..])))
  {
  }

  lemma EndOfEnd(record: seq<byte>, remaining: seq<byte>, n: nat)
    requires |remaining| <= |record| && remaining == record[|record| - |remaining|..] && n <= |remaining|
    ensures remaining[n..] == record[|record| - |remaining[n..]|..]
  {
  }

  lemma ToInv(setup: Setup, s: State)
    requires s.process.Up? && !s.published && SourceOrderFile(setup, s.file) && ProcessInv(setup, s.file, s.process)
    ensures Inv(setup, s)
  {
  }

  /** The part of the invariant that a write does not touch. */
  lemma OrderedProcess(setup: Setup, s: State)
    requires Inv(setup, s) && s.process.Up?
    ensures SourceOrder(setup, s.process.rows)
    ensures AllProduced(setup, s.process.finished)
    ensures s.process.append.Some? ==> Produced(setup, |s.process.rows|, s.process.append.value.0)
    ensures !s.published
  {
  }

  lemma AfterWrite(setup: Setup, file: seq<byte>, p: Process, row: Row, rest: seq<byte>)
    requires p.Up? && p.append == Some((row, rest)) && SourceOrder(setup, p.rows) && Produced(setup, |p.rows|, row)
    requires AllProduced(setup, p.finished)
    requires var record := setup.Record(row);
             && |rest| <= |record| && rest == record[|record| - |rest|..]
             && if rest == [] then
                  EndsCommitted(file) && RowsIn(setup, file) == CommittedRows(setup, file) == Some(p.rows + [row])
                    && Tail(file) == []
                else
                  CommittedRows(setup, file) == Some(p.rows)
                    && Tail(file) == record[..|record| - |rest|] <= setup.encode(row)
    ensures SourceOrderFile(setup, file) && ProcessInv(setup, file, p)
  {
    hide CommittedRows, RowsIn, EndsCommitted, Tail, Setup.Record, Produced, SourceOrder, PartOfLine;
    NextLine(setup, p.rows, row, Tail(file));
  }

  lemma NextLine(setup: Setup, rows: seq<Row>, row: Row, tail: seq<byte>)
    requires SourceOrder(setup, rows) && Produced(setup, |rows|, row)
    ensures SourceOrder(setup, rows + [row])
    ensures tail <= setup.encode(row) ==> PartOfLine(setup, |rows|, tail)
  {
  }

  lemma SplitAtDurable(file: seq<byte>)
    ensures file == Durable(file) + Tail(file) && EndsCommitted(Durable(file))
  {
    DurableEndsCommitted(file);
  }

  lemma StepKeepsInv(setup: Setup, s: State, t: State)
    requires setup.Valid() && Inv(setup, s) && Step(setup, s, t)
    ensures Inv(setup, t)
    ensures CommittedRows(setup, s.file).value <= CommittedRows(setup, t.file).value
    ensures s.published ==> t.published && t.file == s.file
  {
    hide RowsIn;
    if n: nat :| Write(s, t, n) {
      WriteKeepsInv(setup, s, t, n);
    } else {
      assert t.file == s.file;
      if EndsCommitted(s.file) { WholeFile(setup, s.file); }
      if i: nat, response: Response :| Recognize(setup, s, t, i, response) {
        assert Produced(setup, i, setup.RowFor(setup.samples[i], response));
      } else if Emit(setup, s, t) {
        var record := setup.Record(s.process.finished[|s.process.rows|]);
        assert record[0..] == record;
      }
    }
  }

  // ------------------------------------------------------------------ whole runs

  lemma {:induction false} RunKeepsInv(setup: Setup, run: seq<State>, k: nat)
    requires setup.Valid() && IsRun(setup, run) && k < |run|
    ensures Inv(setup, run[k])
  {
    if k > 0 {
      RunKeepsInv(setup, run, k - 1);
      StepKeepsInv(setup, run[k - 1], run[k]);
    }
  }

  /** At every moment of every run the file is a source-order prefix of the manifest and
      at most one unfinished line; later moments only extend the committed rows; and a
      published result freezes the file. */
  lemma {:induction false} SourceOrderAlways(setup: Setup, run: seq<State>, i: nat, j: nat)
    requires setup.Valid() && IsRun(setup, run) && i <= j < |run|
    ensures SourceOrderFile(setup, run[i].file) && SourceOrderFile(setup, run[j].file)
    ensures CommittedRows(setup, run[i].file).value <= CommittedRows(setup, run[j].file).value
    ensures run[i].published ==> run[j].published && run[j].file == run[i].file
    decreases j - i
  {
    RunKeepsInv(setup, run, i);
    if i < j {
      StepKeepsInv(setup, run[i], run[i + 1]);
      SourceOrderAlways(setup, run, i + 1, j);
    }
  }

  lemma ResumableIff(setup: Setup, file: seq<byte>)
    requires SourceOrderFile(setup, file)
    ensures CanResume(setup, file) <==> EndsCommitted(file)
  {
    hide RowsIn, CommittedRows, EndsCommitted, Tail, PartOfLine, SourceOrder, RowMatches;
    if EndsCommitted(file) {
      WholeFile(setup, file);
      var rows := CommittedRows(setup, file).value;
      ProducedWithin(setup, rows);
      assert Resumes(setup, file, rows);
    }
  }

  /** A resume is refused exactly when an earlier process died inside a line. */
  lemma ResumeIffWholeLines(setup: Setup, run: seq<State>, k: nat)
    requires setup.Valid() && IsRun(setup, run) && k < |run|
    ensures CanResume(setup, run[k].file) <==> Tail(run[k].file) == []
  {
    var file := run[k].file;
    SplitAtDurable(file);
    assert Tail(file) == [] ==> file == Durable(file);
    if EndsCommitted(file) { WholeFile(setup, file); }
    RunKeepsInv(setup, run, k);
    hide CommittedRows, IsRun, SourceOrder, PartOfLine, CanResume, Tail, Durable, EndsCommitted, ProcessInv;
    ResumableIff(setup, file);
  }

  lemma ProducedWithin(setup: Setup, rows: seq<Row>)
    requires SourceOrder(setup, rows)
    ensures |rows| <= |setup.samples|
    ensures forall k :: 0 <= k < |rows| ==> RowMatches(setup, setup.samples[k], rows[k])
  {
    if rows != [] { assert Produced(setup, |rows| - 1, rows[|rows| - 1]); }
  }

  // ------------------------------------------------------------------- the auditor

  datatype Snapshot = Rejected | Parsed(rows: seq<Row>, tail: bool)

  /** Parse whatever bytes the auditor found in the file. */
  method ReadSnapshot(setup: Setup, bytes: seq<byte>, allowPartial: bool) returns (snapshot: Snapshot)
    ensures snapshot.Parsed? <==> (allowPartial || EndsCommitted(bytes)) && CommittedRows(setup, bytes).Some?
    ensures snapshot.Parsed? ==>
              snapshot.rows == CommittedRows(setup, bytes).value && (snapshot.tail <==> !EndsCommitted(bytes))
  {
    var data := bytes;
    var tail := data != [] && data[|data| - 1] != NEWLINE;
    DurableEndsCommitted(data);
    if tail {
      if !allowPartial {
        return Rejected;
      }
      data := data[..Committed(data)];
    }
    var lines := SplitLines(data);
    var rows: seq<Row> := [];
    for k := 0 to |lines|
      invariant DecodeAll(setup, lines[..k]) == Some(rows)
    {
      assert lines[..k + 1][..k] == lines[..k];
      var row := setup.decode(lines[k]);
      if row.None? {
        if DecodeAll(setup, lines).Some? { DecodePrefix(setup, lines, k + 1); }
        return Rejected;
      }
      rows := rows + [row.value];
    }
    assert lines[..|lines|] == lines;
    snapshot := Parsed(rows, tail);
  }

  ghost predicate IsOriginal(condition: Option<string>) {
    condition == None || condition == Some("original")
  }

  ghost predicate PairMatches(sample: Sample, row: Row) {
    && row.sample.(condition := None) == sample.(condition := None)
    && IsOriginal(row.sample.condition)
    && (row.status == Failed ==> row.hypothesis == "")
    && (row.status == Ok ==> row.error == None)
  }

  ghost predicate DistinctIds(samples: seq<Sample>) {
    forall i, j :: 0 <= i < j < |samples| ==> samples[i].id != samples[j].id
  }

  function SamplesOf(rows: seq<Row>): seq<Sample> {
    seq(|rows|, k requires 0 <= k < |rows| => rows[k].sample)
  }

  /** What the pairing check demands. */
  ghost predicate Pairs(samples: seq<Sample>, rows: seq<Row>, complete: bool) {
    && |rows| <= |samples| && (complete ==> |rows| == |samples|)
    && DistinctIds(SamplesOf(rows)) && DistinctIds(samples)
    && forall k :: 0 <= k < |rows| ==> PairMatches(samples[k], rows[k])
  }

  function Ids(samples: seq<Sample>): set<string> {
    set k | 0 <= k < |samples| :: samples[k].id
  }

  /** The size of the id set tells whether ids repeat. */
  lemma {:induction false} CountedIds(samples: seq<Sample>)
    ensures |Ids(samples)| <= |samples|
    ensures |Ids(samples)| == |samples| <==> DistinctIds(samples)
  {
    if samples != [] {
      var init, id := samples[..|samples| - 1], samples[|samples| - 1].id;
      CountedIds(init);
      forall x ensures x in Ids(samples) <==> x in Ids(init) + {id} {
        if x in Ids(init) {
          var k :| 0 <= k < |init| && init[k].id == x;
          assert samples[k].id == x;
        }
        if x in Ids(samples) && x != id {
          var k :| 0 <= k < |samples| && samples[k].id == x;
          assert init[k].id == x;
        }
      }
      assert Ids(samples) == Ids(init) + {id};
      if id in Ids(init) {
        var k :| 0 <= k < |init| && init[k].id == id;
        assert samples[k].id == samples[|samples| - 1].id;
        assert !DistinctIds(samples);
      } else if DistinctIds(init) {
        forall i, j | 0 <= i < j < |samples| ensures samples[i].id != samples[j].id {
          assert init[i].id in Ids(init) && samples[i].id == init[i].id;
          if j < |init| { assert init[i].id != init[j].id; }
        }
      } else {
        var i, j :| 0 <= i < j < |init| && init[i].id == init[j].id;
        assert samples[i].id == samples[j].id;
      }
    }
  }

  method VerifyPairing(samples: seq<Sample>, rows: seq<Row>, complete: bool) returns (accepted: bool)
    ensures accepted <==> Pairs(samples, rows, complete)
  {
    if |rows| > |samples| {
      return false;
    }
    CountedIds(SamplesOf(rows));
    CountedIds(samples);
    if |Ids(SamplesOf(rows))| != |rows| || |Ids(samples)| != |samples| || (complete && |rows| != |samples|) {
      return false;
    }
    for k := 0 to |rows|
      invariant forall i :: 0 <= i < k ==> PairMatches(samples[i], rows[i])
    {
      var sample, row := samples[k], rows[k];
      if row.sample.id != sample.id || row.sample.reference != sample.reference || row.sample.sha256 != sample.sha256
         || row.sample.path != sample.path || row.sample.language != sample.language
         || row.sample.dataset != sample.dataset || row.sample.split != sample.split {
        return false;
      }
      if row.sample.condition.Some? && row.sample.condition.value != "original" {
        return false;
      }
      if (row.status == Failed && row.hypothesis != "") || (row.status == Ok && row.error != None) {
        return false;
      }
    }
    accepted := true;
  }

  /** Any byte prefix of a file commits a prefix of its rows. */
  lemma SnapshotIsPrefix(setup: Setup, file: seq<byte>, cut: nat)
    requires cut <= |file| && CommittedRows(setup, file).Some?
    ensures CommittedRows(setup, file[..cut]).Some?
    ensures CommittedRows(setup, file[..cut]).value <= CommittedRows(setup, file).value
  {
    var data := file[..cut];
    assert file == data + file[cut..];
    DurableGrows(data, file[cut..]);
    var d, e := Durable(data), Durable(file);
    var rest := e[|d|..];
    assert e == d + rest;
    DurableEndsCommitted(data);
    SplitAppend(d, rest);
    DecodePrefix(setup, SplitLines(e), |SplitLines(d)|);
    assert SplitLines(e)[..|SplitLines(d)|] == SplitLines(d);
  }

  /** Whatever bytes of a live file the partial audit catches, they parse to a prefix of the
      writer's rows, and the pairing check accepts them exactly when the samples covered so
      far are original recordings. */
  lemma SnapshotPairs(setup: Setup, run: seq<State>, k: nat, cut: nat)
    requires setup.Valid() && IsRun(setup, run) && k < |run| && cut <= |run[k].file|
    ensures var rows := CommittedRows(setup, run[k].file[..cut]);
            && rows.Some? && CommittedRows(setup, run[k].file).Some?
            && rows.value <= CommittedRows(setup, run[k].file).value
            && |rows.value| <= |setup.samples|
            && (Pairs(setup.samples, rows.value, false) <==>
                  forall i :: 0 <= i < |rows.value| ==> IsOriginal(setup.samples[i].condition))
  {
    RunKeepsInv(setup, run, k);
    SnapshotIsPrefix(setup, run[k].file, cut);
    var all, rows := CommittedRows(setup, run[k].file).value, CommittedRows(setup, run[k].file[..cut]).value;
    ProducedWithin(setup, all);
    forall i | 0 <= i < |rows|
      ensures rows[i].sample == setup.samples[i]
      ensures PairMatches(setup.samples[i], rows[i]) <==> IsOriginal(setup.samples[i].condition)
    {
      assert Produced(setup, i, all[i]);
    }
  }

  /** The auditor looks for the published result first and reads the ledger afterwards; in
      that order a published result is always met by a complete ledger without a tail. */
  lemma PublishedBeforeLedger(setup: Setup, run: seq<State>, seen: nat, read: nat)
    requires setup.Valid() && IsRun(setup, run) && seen <= read < |run| && run[seen].published
    ensures EndsCommitted(run[read].file) && CommittedRows(setup, run[read].file).Some?
    ensures |CommittedRows(setup, run[read].file).value| == |setup.samples|
  {
    RunKeepsInv(setup, run, seen);
    SourceOrderAlways(setup, run, seen, read);
  }

  // ------------------------------------------------- one process after the other

  const SCRATCH := State([], Down, false)

  /** The state a new process finds after the given one has stopped or died. */
  function Stopped(s: State): State {
    s.(process := Down)
  }

  /** What process `k` finds: nothing yet, or what the one before it left. */
  function FoundBy(traces: seq<seq<State>>, k: nat): State
    requires k <= |traces|
  {
    if k == 0 || traces[k - 1] == [] then SCRATCH else Stopped(traces[k - 1][|traces[k - 1]| - 1])
  }

  /** Traces of processes that take over from each other, the first from scratch. */
  ghost predicate Chained(setup: Setup, traces: seq<seq<State>>) {
    forall k :: 0 <= k < |traces| ==> IsTrace(setup, traces[k]) && traces[k] != [] && traces[k][0] == FoundBy(traces, k)
  }

  /** A run continued by a trace; a process that died is followed by its crash. */
  function Join(run: seq<State>, t: seq<State>): seq<State>
    requires run != [] && t != []
  {
    if run[|run| - 1] == t[0] then run + t[1..] else run + t
  }

  /** All states of the traces in order. */
  function Joined(traces: seq<seq<State>>): (run: seq<State>)
    ensures run != []
  {
    if traces == [] then [SCRATCH] else
    var before, t := Joined(traces[..|traces| - 1]), traces[|traces| - 1];
    if t == [] then before else Join(before, t)
  }

  lemma JoinTwo(setup: Setup, run: seq<State>, t: seq<State>)
    requires IsRun(setup, run) && IsTrace(setup, t) && t != [] && t[0] == Stopped(run[|run| - 1])
    ensures IsRun(setup, Join(run, t))
  {
    var last, all := run[|run| - 1], Join(run, t);
    if last != t[0] { assert Crash(last, t[0]); }
    assert last != t[0] ==> Step(setup, last, t[0]);
    JoinIndices(run, t);
    hide Step, Join, Stopped;
    var shift := |all| - |t|;
    forall k | 0 < k < |all| ensures Step(setup, all[k - 1], all[k]) {
      if k < |run| {
        assert Step(setup, run[k - 1], run[k]);
      } else if k > shift {
        assert Step(setup, t[k - shift - 1], t[k - shift]);
      }
    }
  }

  lemma JoinIndices(run: seq<State>, t: seq<State>)
    requires run != [] && t != []
    ensures var all := Join(run, t);
            var shift := |all| - |t|;
            && shift == (if run[|run| - 1] == t[0] then |run| - 1 else |run|)
            && (forall k :: 0 <= k < |run| ==> all[k] == run[k])
            && forall k :: shift <= k < |all| ==> all[k] == t[k - shift]
  {
  }

  /** Chained traces make one run, left as the last process leaves it. */
  lemma {:induction false} JoinedIsRun(setup: Setup, traces: seq<seq<State>>)
    requires Chained(setup, traces)
    ensures IsRun(setup, Joined(traces))
    ensures Stopped(Joined(traces)[|Joined(traces)| - 1]) == FoundBy(traces, |traces|)
  {
    if traces != [] {
      var n := |traces| - 1;
      ChainedInit(setup, traces);
      JoinedOf(traces);
      hide *;
      JoinedIsRun(setup, traces[..n]);
      JoinTwo(setup, Joined(traces[..n]), traces[n]);
    }
  }

  lemma ChainedInit(setup: Setup, traces: seq<seq<State>>)
    requires traces != [] && Chained(setup, traces)
    ensures var n := |traces| - 1;
            var init, t := traces[..n], traces[n];
            && Chained(setup, init) && IsTrace(setup, t) && t != [] && t[0] == FoundBy(init, n)
            && FoundBy(traces, |traces|) == Stopped(t[|t| - 1])
  {
    hide IsTrace;
    var init := traces[..|traces| - 1];
    forall k | 0 <= k <= |init| ensures FoundBy(init, k) == FoundBy(traces, k) { }
  }

  lemma JoinedOf(traces: seq<seq<State>>)
    requires traces != [] && traces[|traces| - 1] != []
    ensures var before, t := Joined(traces[..|traces| - 1]), traces[|traces| - 1];
            Joined(traces) == Join(before, t) && Joined(traces)[|Joined(traces)| - 1] == t[|t| - 1]
  {
  }

  /** The last trace ends the run; it may share its first state with the run before it. */
  lemma JoinedLast(traces: seq<seq<State>>)
    requires traces != [] && traces[|traces| - 1] != []
    ensures var before, t, run := Joined(traces[..|traces| - 1]), traces[|traces| - 1], Joined(traces);
            && |before| <= |run| && run[..|before|] == before
            && |before| - 1 <= |run| - |t| && run[|run| - |t|..] == t
  {
  }

  /** Where trace `k` starts in the run. */
  lemma {:induction false} StretchOf(traces: seq<seq<State>>, k: nat) returns (at: nat)
    requires k < |traces| && forall i :: 0 <= i < |traces| ==> traces[i] != []
    ensures at + |traces[k]| <= |Joined(traces)| && Joined(traces)[at..at + |traces[k]|] == traces[k]
    ensures |Joined(traces[..k])| - 1 <= at && at + |traces[k]| == |Joined(traces[..k + 1])|
    decreases |traces|
  {
    hide *;
    var n := |traces| - 1;
    var init, t, run := traces[..n], traces[n], Joined(traces);
    JoinedLast(traces);
    if k < n {
      assert init[..k] == traces[..k] && init[..k + 1] == traces[..k + 1];
      at := StretchOf(init, k);
      var before := Joined(init);
      assert run[at..at + |traces[k]|] == run[..|before|][at..at + |traces[k]|];
    } else {
      assert traces[..k + 1] == traces;
      at := |run| - |t|;
    }
  }

  lemma {:induction false} JoinedGrows(traces: seq<seq<State>>, k: nat)
    requires k <= |traces| && forall i :: 0 <= i < |traces| ==> traces[i] != []
    ensures |Joined(traces[..k])| <= |Joined(traces)|
    decreases |traces|
  {
    hide *;
    if k < |traces| {
      var init := traces[..|traces| - 1];
      assert init[..k] == traces[..k];
      JoinedLast(traces);
      JoinedGrows(init, k);
    } else {
      assert traces[..k] == traces;
    }
  }

  lemma PositionsOf(traces: seq<seq<State>>, k: nat, i: nat, l: nat, j: nat) returns (x: nat, y: nat)
    requires k <= l < |traces| && forall m :: 0 <= m < |traces| ==> traces[m] != []
    requires i < |traces[k]| && j < |traces[l]| && (k == l ==> i <= j)
    ensures x <= y < |Joined(traces)| && Joined(traces)[x] == traces[k][i] && Joined(traces)[y] == traces[l][j]
  {
    hide *;
    x := PositionOf(traces, k, i);
    y := PositionOf(traces, l, j);
    if k < l {
      assert traces[..l][..k + 1] == traces[..k + 1];
      JoinedGrows(traces[..l], k + 1);
    }
  }

  lemma PositionOf(traces: seq<seq<State>>, k: nat, i: nat) returns (x: nat)
    requires k < |traces| && i < |traces[k]| && forall m :: 0 <= m < |traces| ==> traces[m] != []
    ensures x < |Joined(traces)| && Joined(traces)[x] == traces[k][i]
    ensures |Joined(traces[..k])| - 1 <= x - i && x - i + |traces[k]| == |Joined(traces[..k + 1])|
  {
    hide *;
    var at := StretchOf(traces, k);
    x := at + i;
    assert Joined(traces)[x] == Joined(traces)[at..at + |traces[k]|][i];
  }

  /** However many processes work on a ledger one after the other, each stopping or dying
      anywhere, every state of every process finds a source-order file, and no later state
      of the same or a later process has lost a committed row. */
  lemma AcrossProcesses(setup: Setup, traces: seq<seq<State>>, k: nat, i: nat, l: nat, j: nat)
    requires setup.Valid() && Chained(setup, traces) && k <= l < |traces|
    requires i < |traces[k]| && j < |traces[l]| && (k == l ==> i <= j)
    ensures var early, late := traces[k][i], traces[l][j];
            && SourceOrderFile(setup, early.file) && SourceOrderFile(setup, late.file)
            && CommittedRows(setup, early.file).value <= CommittedRows(setup, late.file).value
            && (early.published ==> late.published && late.file == early.file)
  {
    assert forall m :: 0 <= m < |traces| ==> traces[m] != [];
    hide *;
    JoinedIsRun(setup, traces);
    var x, y := PositionsOf(traces, k, i, l, j);
    SourceOrderAlways(setup, Joined(traces), x, y);
  }

  // ------------------------------------------------------------------- the program

  lemma TraceExtends(setup: Setup, run: seq<State>, t: State)
    requires run != [] && IsTrace(setup, run) && Step(setup, run[|run| - 1], t)
    ensures IsTrace(setup, run + [t])
  {
    hide Step;
    forall k | 0 < k < |run + [t]| ensures Step(setup, (run + [t])[k - 1], (run + [t])[k]) {
      if k < |run| { assert Step(setup, run[k - 1], run[k]); }
    }
  }

  datatype Outcome = Refused | Raised | Complete(rows: seq<Row>)

  class Writer {
    const setup: Setup
    var file: seq<byte>
    var rows: seq<Row>
    var published: bool
    ghost var run: seq<State>
    /** What each recognition of this process has come back with. */
    ghost var answers: map<nat, Response>

    constructor (setup: Setup, file: seq<byte>, published: bool)
      ensures this.setup == setup && this.file == file && this.published == published
    {
      this.setup, this.file, this.published := setup, file, published;
      rows, run, answers := [], [], map[];
    }

    ghost predicate Recorded(finished: map<nat, Row>, append: Option<(Row, seq<byte>)>)
      reads this
    {
      setup.Valid() && run != [] && IsTrace(setup, run)
        && run[|run| - 1] == State(file, Up(rows, finished, append), published)
    }

    /** Read the ledger back; any tail, bad line or mismatch refuses the resume. */
    method Resume() returns (ok: bool)
      modifies this`rows
      ensures ok ==> Resumes(setup, file, rows)
      ensures !ok ==> !CanResume(setup, file)
    {
      rows := [];
      if file != [] && file[|file| - 1] != NEWLINE {
        return false;
      }
      var lines := SplitLines(file);
      for k := 0 to |lines|
        invariant DecodeAll(setup, lines[..k]) == Some(rows)
      {
        assert lines[..k + 1][..k] == lines[..k];
        var row := setup.decode(lines[k]);
        if row.None? {
          if DecodeAll(setup, lines).Some? { DecodePrefix(setup, lines, k + 1); }
          return false;
        }
        rows := rows + [row.value];
      }
      assert lines[..|lines|] == lines;
      if |rows| > |setup.samples| {
        return false;
      }
      for k := 0 to |rows|
        invariant forall i :: 0 <= i < k ==> RowMatches(setup, setup.samples[i], rows[i])
      {
        var row, sample := rows[k], setup.samples[k];
        if row.sample.id != sample.id || row.sample.path != sample.path || row.sample.reference != sample.reference
           || row.sample.sha256 != sample.sha256 || row.sample.language != sample.language
           || row.sample.dataset != sample.dataset || row.sample.split != sample.split {
          return false;
        }
        if row.sample.condition != sample.condition {
          return false;
        }
        if row.status == Failed && row.hypothesis != "" {
          return false;
        }
        if row.scores != setup.score(sample.reference, row.hypothesis) {
          return false;
        }
      }
      ok := true;
    }

    /** Append one finished row, in as many writes as it takes. */
    method AppendRow(row: Row, ghost finished: map<nat, Row>) returns (ok: bool)
      requires Recorded(finished, Some((row, setup.Record(row))))
      modifies this`file, this`rows, this`run
      ensures run != [] && old(run) <= run
      ensures ok ==> Recorded(finished, None) && rows == old(rows) + [row] && file == old(file) + setup.Record(row)
      ensures !ok ==> CutOff(old(file), setup.Record(row), file)
      ensures !ok ==> IsTrace(setup, run) && run[|run| - 1].file == file && run[|run| - 1].published == published
    {
      hide Step, IsTrace;
      var remaining := setup.Record(row);
      while remaining != []
        invariant run != [] && old(run) <= run && rows == old(rows)
        invariant Recorded(finished, Some((row, remaining)))
        invariant file + remaining == old(file) + setup.Record(row) && |old(file)| <= |file|
        decreases |remaining|
      {
        var written: int :| written <= |remaining|;
        if written <= 0 {
          CutWhereLeft(old(file), setup.Record(row), file, remaining);
          return false;
        }
        ghost var before := run[|run| - 1];
        file := file + remaining[..written];
        remaining := remaining[written..];
        ghost var after := State(file, Up(rows, finished, Some((row, remaining))), published);
        assert Write(before, after, written);
        IsStep(setup, before, after);
        TraceExtends(setup, run, after);
        run := run + [after];
      }
      assert file + [] == file;
      ghost var before := run[|run| - 1];
      rows := rows + [row];
      ghost var after := State(file, Up(rows, finished, None), published);
      assert Commit(before, after);
      IsStep(setup, before, after);
      TraceExtends(setup, run, after);
      run := run + [after];
      ok := true;
    }

    /** Recognitions that finish before the next row is taken: any of those still to come, in
        any order, and in any case the one whose turn it is. */
    method RecognizeSome(finished: map<nat, Row>) returns (finished': map<nat, Row>)
      requires Recorded(finished, None) && Answered(setup, finished, answers) && |rows| < |setup.samples|
      modifies this`run, this`answers
      ensures run != [] && old(run) <= run && Recorded(finished', None)
      ensures Answered(setup, finished', answers) && |rows| in finished'
      ensures forall k :: k in old(answers) && k < |rows| ==> k in answers && answers[k] == old(answers)[k]
    {
      hide Step, IsTrace, Setup.Valid, Setup.RowFor, Answered;
      var open := set i | |rows| <= i < |setup.samples| && i !in finished;
      assert |rows| in finished || {|rows|} <= open;
      var batch :| batch <= open && (|rows| in finished || |rows| in batch);
      finished' := finished;
      while batch != {}
        invariant run != [] && old(run) <= run && Recorded(finished', None) && Answered(setup, finished', answers)
        invariant forall k :: k in old(answers) && k < |rows| ==> k in answers && answers[k] == old(answers)[k]
        invariant forall i :: i in batch ==> |rows| <= i < |setup.samples| && i !in finished'
        invariant |rows| in finished' || |rows| in batch
        decreases batch
      {
        var i :| i in batch;
        var response: Response := *;
        ghost var before := run[|run| - 1];
        var row := setup.RowFor(setup.samples[i], response);
        OneAnswered(setup, finished', answers, i, response);
        finished' := finished'[i := row];
        answers := answers[i := response];
        ghost var after := State(file, Up(rows, finished', None), published);
        RecognizeIsStep(setup, before, after, i, response);
        TraceExtends(setup, run, after);
        run := run + [after];
        batch := batch - {i};
      }
    }

    /** Take the next row in source order, when it is there, and append it. */
    method EvaluateNext(finished: map<nat, Row>) returns (ok: bool, finished': map<nat, Row>)
      requires Recorded(finished, None) && Answered(setup, finished, answers) && |rows| < |setup.samples|
      requires Resumes(setup, file, rows)
      modifies this`file, this`rows, this`run, this`answers
      ensures run != [] && old(run) <= run
      ensures ok ==> Recorded(finished', None) && Answered(setup, finished', answers) && |rows| == old(|rows|) + 1
      ensures ok ==> old(rows) <= rows && Told(setup, rows, old(|rows|), answers)
      ensures forall k :: k in old(answers) && k < old(|rows|) ==> k in answers && answers[k] == old(answers)[k]
      ensures ok ==> Resumes(setup, file, rows)
      ensures !ok ==> IsTrace(setup, run) && run[|run| - 1].file == file && run[|run| - 1].published == published
    {
      hide Step, IsTrace, Resumes, Setup.Valid, Setup.RowFor, Tells;
      finished' := RecognizeSome(finished);
      var row := finished'[|rows|];
      ghost var before := run[|run| - 1];
      ghost var emitted := State(file, Up(rows, finished', Some((row, setup.Record(row)))), published);
      assert Emit(setup, before, emitted);
      IsStep(setup, before, emitted);
      TraceExtends(setup, run, emitted);
      run := run + [emitted];
      RowIsTold(setup, |rows|, row, answers[|rows|]);
      ResumesMore(setup, file, rows, row);
      ok := AppendRow(row, finished');
    }

    /** The whole program: every state it passes through is recorded, and the recording is a
        trace of the protocol. */
    method Evaluate() returns (outcome: Outcome)
      requires setup.Valid()
      modifies this
      ensures outcome.Refused? <==> !CanResume(setup, old(file))
      ensures outcome.Refused? ==> file == old(file) && published == old(published)
      ensures !outcome.Refused? ==>
                && run != [] && IsTrace(setup, run) && run[0] == State(old(file), Down, old(published))
                && run[|run| - 1].file == file && run[|run| - 1].published == published
      ensures outcome.Complete? ==> published && outcome.rows == rows && |rows| == |setup.samples|
      ensures outcome.Complete? ==> Resumes(setup, file, rows)
      ensures outcome.Complete? ==>
                exists n: nat :: n <= |rows| && RowsIn(setup, old(file)) == Some(rows[..n])
                  && Told(setup, rows, n, answers)
    {
      hide Step, IsTrace, RowsIn, RowMatches, Setup.Valid, Tells;
      var ok := Resume();
      if !ok {
        return Refused;
      }
      ghost var down, resumed := State(file, Down, published), rows;
      run := [down];
      TraceStarts(setup, down);
      if |rows| == |setup.samples| {
        published := true;
        ghost var after := State(file, Down, true);
        assert Reconstruct(setup, down, after, rows);
        IsStep(setup, down, after);
        TraceExtends(setup, run, after);
        run := run + [after];
        assert rows[..|rows|] == rows && Told(setup, rows, |rows|, answers);
        return Complete(rows);
      }
      var finished: map<nat, Row> := map[];
      ghost var booted := State(file, Up(rows, finished, None), published);
      assert Boot(setup, down, booted, rows);
      IsStep(setup, down, booted);
      TraceExtends(setup, run, booted);
      run := run + [booted];
      while |rows| < |setup.samples|
        invariant Recorded(finished, None) && run[0] == down && |rows| <= |setup.samples|
        invariant Resumes(setup, file, rows)
        invariant Answered(setup, finished, answers)
        invariant resumed <= rows && Told(setup, rows, |resumed|, answers)
        decreases |setup.samples| - |rows|
      {
        ok, finished := EvaluateNext(finished);
        if !ok {
          return Raised;
        }
      }
      ghost var before := run[|run| - 1];
      published := true;
      ghost var last := State(file, Down, true);
      assert Publish(setup, before, last);
      IsStep(setup, before, last);
      TraceExtends(setup, run, last);
      run := run + [last];
      assert rows[..|resumed|] == resumed;
      outcome := Complete(rows);
    }
  }

  /** Finished recognitions tell what they came back with. */
  ghost predicate Answered(setup: Setup, finished: map<nat, Row>, answers: map<nat, Response>) {
    forall i :: i in finished ==>
                  i < |setup.samples| && i in answers && Tells(finished[i], setup.score, setup.samples[i], answers[i])
  }

  lemma OneAnswered(setup: Setup, finished: map<nat, Row>, answers: map<nat, Response>, i: nat, response: Response)
    requires Answered(setup, finished, answers) && i < |setup.samples| && i !in finished
    ensures Answered(setup, finished[i := setup.RowFor(setup.samples[i], response)], answers[i := response])
  {
    RowIsTold(setup, i, setup.RowFor(setup.samples[i], response), response);
    hide Tells, Setup.RowFor;
  }

  /** So do the rows from number `n` on. */
  ghost predicate Told(setup: Setup, rows: seq<Row>, n: nat, answers: map<nat, Response>) {
    forall k :: n <= k < |rows| ==>
                  k < |setup.samples| && k in answers && Tells(rows[k], setup.score, setup.samples[k], answers[k])
  }

  /** The next sample's row keeps the ledger one that a resume accepts. */
  lemma ResumesMore(setup: Setup, file: seq<byte>, rows: seq<Row>, row: Row)
    requires setup.Valid() && Resumes(setup, file, rows) && Produced(setup, |rows|, row)
    ensures Resumes(setup, file + setup.Record(row), rows + [row])
  {
    AppendedRow(setup, file, row);
    hide RowsIn, EndsCommitted;
  }

  lemma IsStep(setup: Setup, s: State, t: State)
    ensures forall rows :: Boot(setup, s, t, rows) ==> Step(setup, s, t)
    ensures forall rows :: Reconstruct(setup, s, t, rows) ==> Step(setup, s, t)
    ensures forall n: nat :: Write(s, t, n) ==> Step(setup, s, t)
    ensures Emit(setup, s, t) || Commit(s, t) || Publish(setup, s, t) || Crash(s, t) ==> Step(setup, s, t)
  {
  }

  /** The row made of a recognition is the one that tells what it came back with. */
  lemma RowIsTold(setup: Setup, k: nat, row: Row, response: Response)
    requires k < |setup.samples|
    ensures Tells(row, setup.score, setup.samples[k], response) <==> row == setup.RowFor(setup.samples[k], response)
    ensures Tells(row, setup.score, setup.samples[k], response) ==> Produced(setup, k, row)
  {
  }

  lemma RecognizeIsStep(setup: Setup, s: State, t: State, i: nat, response: Response)
    requires Recognize(setup, s, t, i, response)
    ensures Step(setup, s, t)
  {
  }

  lemma TraceStarts(setup: Setup, s: State)
    ensures IsTrace(setup, [s])
  {
  }

}
