/** The resumable evaluation run: a bounded pool of requests, one writer appending a
  row per finished request, a process that may die between any two bytes, and a resume
  that truncates to the last newline.

  `Step` is the protocol, `Inv` what every reachable state satisfies. The class at the
  end is the program; every state it passes through is recorded and the recording is a
  run of the protocol.
  */
module PoolLedger {
  import opened Options
  import opened Framing
  import opened Encoding

  // ------------------------------------------------------------------ entities

  /** A binary floating-point number of seconds. */
  datatype Seconds = Seconds(mantissa: int, exponent: int)

  datatype Fields = Fields(sha256: string, reference: string, language: string, split: string,
                           dataset: string, duration: Seconds, condition: string)
  datatype Sample = Sample(id: string, fields: Fields)
  datatype Status = Ok | Failed
  datatype Row = Row(id: string, fields: Fields, status: Status, error: Option<string>, hypothesis: string,
                     scores: seq<nat>, elapsed: Seconds)

  /** What one request came back with. */
  datatype Response = Text(text: string, elapsed: Seconds) | Error(message: string, elapsed: Seconds)

  datatype Setup = Setup(samples: seq<Sample>, workers: nat, score: (string, string) -> seq<nat>,
                         encode: Row -> seq<byte>, decode: seq<byte> -> Option<Row>)
  {
    /** Preflight's conditions, and a row encoding that reads back and contains no raw line break. */
    ghost predicate Valid() {
      && workers >= 1
      && UniqueIds()
      && (forall row :: NoBreaks(encode(row)) && decode(encode(row)) == Some(row))
    }

    ghost predicate UniqueIds() {
      forall i, j :: 0 <= i < j < |samples| ==> samples[i].id != samples[j].id
    }

    /** A request never raises: an error is a failed row scored as empty. */
    function RowFor(sample: Sample, response: Response): Row {
      var hypothesis := if response.Text? then response.text else "";
      Row(sample.id, sample.fields, if response.Text? then Ok else Failed,
          if response.Text? then None else Some(response.message), hypothesis,
          score(sample.fields.reference, hypothesis), response.elapsed)
    }

    function Record(row: Row): seq<byte> {
      encode(row) + [NEWLINE]
    }
  }

  /** What a row says about the request behind it: the sample it was made for, the text or the
      error it came back with, and the scores of that text. */
  ghost predicate Tells(row: Row, score: (string, string) -> seq<nat>, sample: Sample, response: Response) {
    && row.id == sample.id && row.fields == sample.fields && row.elapsed == response.elapsed
    && (row.status == Failed <==> response.Error?)
    && (response.Error? ==> row.error == Some(response.message) && row.hypothesis == "")
    && (response.Text? ==> row.error == None && row.hypothesis == response.text)
    && row.scores == score(row.fields.reference, row.hypothesis)
  }

  // ------------------------------------------------------ valid set-ups exist

  function FieldCodes(f: Fields): seq<seq<nat>> {
    [TextCodes(f.sha256), TextCodes(f.reference), TextCodes(f.language), TextCodes(f.split), TextCodes(f.dataset),
     TextCodes(f.condition), [IntCode(f.duration.mantissa), IntCode(f.duration.exponent)]]
  }

  function RowCodes(row: Row): seq<seq<nat>> {
    [TextCodes(row.id), [if row.status == Ok then 0 else 1], OptionCodes(row.error), TextCodes(row.hypothesis),
      row.scores,
     [IntCode(row.elapsed.mantissa), IntCode(row.elapsed.exponent)]] + FieldCodes(row.fields)
  }

  lemma FieldCodesInjective(f: Fields, g: Fields)
    requires FieldCodes(f) == FieldCodes(g)
    ensures f == g
  {
    var x, y := FieldCodes(f), FieldCodes(g);
    forall k | 0 <= k < 7 ensures x[k] == y[k] { }
    TextCodesInjective(f.sha256, g.sha256);
    TextCodesInjective(f.reference, g.reference);
    TextCodesInjective(f.language, g.language);
    TextCodesInjective(f.split, g.split);
    TextCodesInjective(f.dataset, g.dataset);
    TextCodesInjective(f.condition, g.condition);
    assert x[6][0] == y[6][0] && x[6][1] == y[6][1];
  }

  lemma RowCodesInjective(a: Row, b: Row)
    requires RowCodes(a) == RowCodes(b)
    ensures a == b
  {
    var x, y := RowCodes(a), RowCodes(b);
    assert x[6..] == FieldCodes(a.fields) && y[6..] == FieldCodes(b.fields);
    FieldCodesInjective(a.fields, b.fields);
    forall k | 0 <= k < 6 ensures x[k] == y[k] { }
    TextCodesInjective(a.id, b.id);
    OptionCodesInjective(a.error, b.error);
    TextCodesInjective(a.hypothesis, b.hypothesis);
    assert x[1][0] == y[1][0] && x[5][0] == y[5][0] && x[5][1] == y[5][1];
  }

  ghost function DecodeRow(line: seq<byte>): Option<Row> {
    if exists row :: TableBytes(RowCodes(row)) == line then
      var row :| TableBytes(RowCodes(row)) == line; Some(row)
    else None
  }

  /** Every manifest with distinct ids and every scorer occur in a valid set-up: an encoding
      as the ledger assumes it exists. */
  lemma ValidSetupExists(samples: seq<Sample>, workers: nat, score: (string, string) -> seq<nat>) returns (setup: Setup)
    requires workers >= 1 && forall i, j :: 0 <= i < j < |samples| ==> samples[i].id != samples[j].id
    ensures setup.Valid() && setup.samples == samples && setup.workers == workers && setup.score == score
  {
    setup := Setup(samples, workers, score, (row: Row) => TableBytes(RowCodes(row)),
      (line: seq<byte>) => DecodeRow(line));
    forall row: Row ensures NoBreaks(setup.encode(row)) && setup.decode(setup.encode(row)) == Some(row) {
      TableUnbroken(RowCodes(row));
      var found := DecodeRow(setup.encode(row)).value;
      TableBytesInjective(RowCodes(found), RowCodes(row));
      RowCodesInjective(found, row);
    }
  }

  // ---------------------------------------------------------------- reading back

  datatype LedgerError = BadJson | UnknownOrDuplicate | IdentityMismatch | InvalidResult | FailedWithText
  datatype Loaded = Rows(rows: map<string, Row>) | Refused(error: LedgerError)

  function SampleOf(samples: seq<Sample>, id: string): (s: Option<Sample>)
    ensures s.Some? ==> s.value in samples && s.value.id == id
    ensures s.None? <==> forall k :: 0 <= k < |samples| ==> samples[k].id != id
  {
    if samples == [] then None
    else if samples[|samples| - 1].id == id then Some(samples[|samples| - 1])
    else SampleOf(samples[..|samples| - 1], id)
  }

  /** One ledger line checked against the manifest and the rows before it. */
  function LoadLine(setup: Setup, rows: map<string, Row>, line: seq<byte>): Loaded {
    var decoded := setup.decode(line);
    if decoded.None? then Refused(BadJson) else
    var row := decoded.value;
    var sample := SampleOf(setup.samples, row.id);
    if sample.None? || row.id in rows then Refused(UnknownOrDuplicate)
    else if row.fields != sample.value.fields then Refused(IdentityMismatch)
    else if row.scores != setup.score(row.fields.reference, row.hypothesis) then Refused(InvalidResult)
    else if row.status == Failed && row.hypothesis != "" then Refused(FailedWithText)
    else Rows(rows[row.id := row])
  }

  function Load(setup: Setup, lines: seq<seq<byte>>): Loaded {
    if lines == [] then Rows(map[]) else
    var loaded := Load(setup, lines[..|lines| - 1]);
    if loaded.Refused? then loaded else LoadLine(setup, loaded.rows, lines[|lines| - 1])
  }

  /** What a resume recovers from a file. */
  function Readback(setup: Setup, file: seq<byte>): Loaded {
    Load(setup, SplitLines(Durable(file)))
  }

  lemma {:induction false} RefusalSticks(setup: Setup, lines: seq<seq<byte>>, k: nat)
    requires k <= |lines| && Load(setup, lines[..k]).Refused?
    ensures Load(setup, lines) == Load(setup, lines[..k])
    decreases |lines|
  {
    if k == |lines| {
      assert lines[..k] == lines;
    } else {
      assert lines[..|lines| - 1][..k] == lines[..k];
      RefusalSticks(setup, lines[..|lines| - 1], k);
    }
  }

  /** A line that stands for one manifest sample: its identity, the scores of its own text, and
      no text where the request failed. */
  ghost predicate Stands(setup: Setup, line: seq<byte>) {
    && setup.decode(line).Some?
    && var row := setup.decode(line).value;
    && (exists sample :: sample in setup.samples && row.id == sample.id && row.fields == sample.fields)
    && row.scores == setup.score(row.fields.reference, row.hypothesis)
    && (row.status == Failed ==> row.hypothesis == "")
  }

  /** `rows` are the rows of the lines, each under its own id. */
  ghost predicate Holds(setup: Setup, lines: seq<seq<byte>>, rows: map<string, Row>) {
    && |rows| == |lines|
    && (forall id :: id in rows ==> HasLine(setup, lines, id, rows[id]))
    && forall k :: 0 <= k < |lines| ==> HasRow(setup, rows, lines[k])
  }

  ghost predicate HasLine(setup: Setup, lines: seq<seq<byte>>, id: string, row: Row) {
    row.id == id && exists k :: 0 <= k < |lines| && setup.decode(lines[k]) == Some(row)
  }

  ghost predicate HasRow(setup: Setup, rows: map<string, Row>, line: seq<byte>) {
    && setup.decode(line).Some?
    && var row := setup.decode(line).value;
    && row.id in rows && rows[row.id] == row
  }

  lemma LineStands(setup: Setup, rows: map<string, Row>, line: seq<byte>)
    requires setup.UniqueIds()
    ensures LoadLine(setup, rows, line).Rows? <==> Stands(setup, line) && setup.decode(line).value.id !in rows
    ensures LoadLine(setup, rows, line).Rows? ==>
              LoadLine(setup, rows, line).rows == rows[setup.decode(line).value.id := setup.decode(line).value]
  {
    if setup.decode(line).Some? {
      var row := setup.decode(line).value;
      if sample :| sample in setup.samples && row.id == sample.id && row.fields == sample.fields {
        UniqueSample(setup, sample);
      }
    }
  }

  lemma HasLineMore(setup: Setup, lines: seq<seq<byte>>, id: string, row: Row)
    requires lines != [] && HasLine(setup, lines[..|lines| - 1], id, row)
    ensures HasLine(setup, lines, id, row)
  {
    var init := lines[..|lines| - 1];
    var k :| 0 <= k < |init| && setup.decode(init[k]) == Some(row);
    assert setup.decode(lines[k]) == Some(row);
  }

  lemma HoldsOneMore(setup: Setup, lines: seq<seq<byte>>, rows: map<string, Row>, row: Row)
    requires lines != [] && Holds(setup, lines[..|lines| - 1], rows)
    requires setup.decode(lines[|lines| - 1]) == Some(row) && row.id !in rows
    ensures Holds(setup, lines, rows[row.id := row])
  {
    hide HasLine, HasRow;
    var n := |lines| - 1;
    var init, more := lines[..n], rows[row.id := row];
    assert more.Keys == rows.Keys + {row.id};
    LastLine(setup, lines, rows, row);
    forall k | 0 <= k < n ensures HasRow(setup, more, lines[k]) {
      assert lines[k] == init[k];
      HasRowStays(setup, rows, row, init[k]);
    }
    forall id | id in more ensures HasLine(setup, lines, id, more[id]) {
      if id in rows.Keys && id != row.id { HasLineMore(setup, lines, id, rows[id]); }
    }
  }

  lemma LastLine(setup: Setup, lines: seq<seq<byte>>, rows: map<string, Row>, row: Row)
    requires lines != [] && setup.decode(lines[|lines| - 1]) == Some(row)
    ensures HasLine(setup, lines, row.id, row) && HasRow(setup, rows[row.id := row], lines[|lines| - 1])
  {
  }

  lemma HasRowStays(setup: Setup, rows: map<string, Row>, row: Row, line: seq<byte>)
    requires HasRow(setup, rows, line) && row.id !in rows
    ensures HasRow(setup, rows[row.id := row], line)
  {
  }

  /** A ledger loads exactly when every line stands for a manifest sample and no id repeats;
      then it holds the rows of its lines. */
  lemma {:induction false} LoadsExactly(setup: Setup, lines: seq<seq<byte>>)
    requires setup.UniqueIds()
    ensures Load(setup, lines).Rows? <==>
              AllStand(setup, lines) && Separate(setup, lines)
    ensures Load(setup, lines).Rows? ==> Holds(setup, lines, Load(setup, lines).rows)
  {
    if lines != [] {
      var n := |lines| - 1;
      var init, last := lines[..n], lines[n];
      LoadStep(setup, lines);
      hide *;
      LoadsExactly(setup, init);
      SeparateSnoc(setup, lines);
      AllStandSnoc(setup, lines);
      if Load(setup, init).Rows? { LoadOneMore(setup, lines, Load(setup, init).rows); }
    }
  }

  lemma LoadStep(setup: Setup, lines: seq<seq<byte>>)
    requires lines != []
    ensures var before := Load(setup, lines[..|lines| - 1]);
            Load(setup, lines) ==
              if before.Refused? then before else LoadLine(setup, before.rows, lines[|lines| - 1])
  {
  }

  lemma LoadOneMore(setup: Setup, lines: seq<seq<byte>>, rows: map<string, Row>)
    requires setup.UniqueIds() && lines != [] && Holds(setup, lines[..|lines| - 1], rows)
    ensures var n := |lines| - 1;
            var loaded := LoadLine(setup, rows, lines[n]);
            && (loaded.Rows? <==>
                  Stands(setup, lines[n]) && forall k :: 0 <= k < n ==> !SameId(setup, lines[..n][k], lines[n]))
            && (loaded.Rows? ==> Holds(setup, lines, loaded.rows))
  {
    var n := |lines| - 1;
    var init, last := lines[..n], lines[n];
    hide LoadLine, Stands, Holds, SameId;
    LineStands(setup, rows, last);
    if Stands(setup, last) {
      StandsDecodes(setup, last);
      IdSeen(setup, init, rows, last);
      if LoadLine(setup, rows, last).Rows? { HoldsOneMore(setup, lines, rows, setup.decode(last).value); }
    }
  }

  ghost predicate AllStand(setup: Setup, lines: seq<seq<byte>>) {
    forall k :: 0 <= k < |lines| ==> Stands(setup, lines[k])
  }

  lemma AllStandSnoc(setup: Setup, lines: seq<seq<byte>>)
    requires lines != []
    ensures var n := |lines| - 1; AllStand(setup, lines) <==> AllStand(setup, lines[..n]) && Stands(setup, lines[n])
  {
    hide Stands;
    var init := lines[..|lines| - 1];
    assert forall k :: 0 <= k < |init| ==> init[k] == lines[k];
  }

  /** No id repeats. */
  ghost predicate Separate(setup: Setup, lines: seq<seq<byte>>) {
    forall i, j :: 0 <= i < j < |lines| ==> !SameId(setup, lines[i], lines[j])
  }

  lemma SeparateSnoc(setup: Setup, lines: seq<seq<byte>>)
    requires lines != []
    ensures var n := |lines| - 1;
            Separate(setup, lines) <==>
              Separate(setup, lines[..n]) && forall k :: 0 <= k < n ==> !SameId(setup, lines[..n][k], lines[n])
  {
    hide SameId;
    var n := |lines| - 1;
    var init := lines[..n];
    if Separate(setup, init) && forall k :: 0 <= k < n ==> !SameId(setup, init[k], lines[n]) {
      forall i, j | 0 <= i < j < |lines| ensures !SameId(setup, lines[i], lines[j]) {
        if j < n { assert !SameId(setup, init[i], init[j]); } else { assert !SameId(setup, init[i], lines[n]); }
      }
    }
    if Separate(setup, lines) {
      forall i, j | 0 <= i < j < n ensures !SameId(setup, init[i], init[j]) {
        assert !SameId(setup, lines[i], lines[j]);
      }
    }
  }

  lemma StandsDecodes(setup: Setup, line: seq<byte>)
    requires Stands(setup, line)
    ensures setup.decode(line).Some?
  {
  }

  ghost predicate SameId(setup: Setup, x: seq<byte>, y: seq<byte>) {
    setup.decode(x).Some? && setup.decode(y).Some? && setup.decode(x).value.id == setup.decode(y).value.id
  }

  lemma IdSeen(setup: Setup, lines: seq<seq<byte>>, rows: map<string, Row>, line: seq<byte>)
    requires Holds(setup, lines, rows)
    ensures setup.decode(line).Some? ==>
              (setup.decode(line).value.id in rows <==> exists k :: 0 <= k < |lines| && SameId(setup, lines[k], line))
  {
    if setup.decode(line).Some? && setup.decode(line).value.id in rows {
      var id := setup.decode(line).value.id;
      assert HasLine(setup, lines, id, rows[id]);
      var k :| 0 <= k < |lines| && setup.decode(lines[k]) == Some(rows[id]);
      assert SameId(setup, lines[k], line);
    }
  }

  /** A finished request's row is never refused by a later resume, and adds exactly itself. */
  lemma RecordLoads(setup: Setup, file: seq<byte>, sample: Sample, response: Response)
    requires setup.Valid() && EndsCommitted(file) && Readback(setup, file).Rows?
    requires sample in setup.samples && sample.id !in Readback(setup, file).rows
    ensures var row := setup.RowFor(sample, response);
            Readback(setup, file + setup.Record(row)) == Rows(Readback(setup, file).rows[sample.id := row])
  {
    var row := setup.RowFor(sample, response);
    assert NoBreaks(setup.encode(row)) && setup.decode(setup.encode(row)) == Some(row);
    AppendRecord(file, setup.encode(row));
    DurableEndsCommitted(file);
    var lines := SplitLines(file);
    assert (lines + [setup.encode(row)])[..|lines|] == lines;
    UniqueSample(setup, sample);
  }

  lemma UniqueSample(setup: Setup, sample: Sample)
    requires setup.UniqueIds() && sample in setup.samples
    ensures SampleOf(setup.samples, sample.id) == Some(sample)
  {
    var k :| 0 <= k < |setup.samples| && setup.samples[k] == sample;
    var found := SampleOf(setup.samples, sample.id);
    assert found.Some?;
    var l :| 0 <= l < |setup.samples| && setup.samples[l] == found.value;
    assert !(k < l) && !(l < k);
  }

  // ------------------------------------------------------------------- protocol

  /** The append in progress: the row and the bytes still to be written. */
  datatype Append = Append(sample: Sample, response: Response, remaining: seq<byte>)

  /** `recovered` rows plus those of this process; `cursor` is how far the sample
      iterator has advanced. */
  datatype Process =
    | Down
    | Up(rows: map<string, Row>, futures: set<string>, cursor: nat, append: Option<Append>)

  datatype State = State(file: seq<byte>, process: Process)

  /** The iterator tests membership only when asked for the next sample. */
  function NextPending(samples: seq<Sample>, rows: map<string, Row>, cursor: nat): (next: nat)
    requires cursor <= |samples|
    ensures cursor <= next <= |samples|
    ensures forall k :: cursor <= k < next ==> samples[k].id in rows
    ensures next < |samples| ==> samples[next].id !in rows
    decreases |samples| - cursor
  {
    if cursor < |samples| && samples[cursor].id in rows then NextPending(samples, rows, cursor + 1) else cursor
  }

  /** Take one sample from the iterator, if there is one, and submit it. */
  function Submit(samples: seq<Sample>, p: Process): (q: Process)
    requires p.Up? && p.cursor <= |samples|
    ensures q.Up? && q.cursor <= |samples|
    ensures q.futures >= p.futures
  {
    var next := NextPending(samples, p.rows, p.cursor);
    if next == |samples| then p.(cursor := next)
    else p.(cursor := next + 1, futures := p.futures + {samples[next].id})
  }

  function Fill(samples: seq<Sample>, p: Process, n: nat): (q: Process)
    requires p.Up? && p.cursor <= |samples|
    ensures q.Up? && q.cursor <= |samples|
  {
    if n == 0 then p else Submit(samples, Fill(samples, p, n - 1))
  }

  /** A process starting up: truncate, read back, fill the pool. */
  ghost predicate Boot(setup: Setup, s: State, t: State) {
    && s.process.Down?
    && t.file == Durable(s.file)
    && Readback(setup, s.file).Rows?
    && t.process == Fill(setup.samples, Up(Readback(setup, s.file).rows, {}, 0, None), setup.workers)
  }

  /** Start-up stops between truncating the file and submitting anything, or refuses it. */
  ghost predicate FailedBoot(setup: Setup, s: State, t: State) {
    s.process.Down? && t.process.Down? && t.file == Durable(s.file)
  }

  /** A request in flight finishes, in any order, and its row starts to be appended. */
  ghost predicate Finish(setup: Setup, s: State, t: State, sample: Sample, response: Response) {
    && s.process.Up? && s.process.append.None?
    && sample in setup.samples && sample.id in s.process.futures
    && t == s.(process := s.process.(futures := s.process.futures - {sample.id},
                 append := Some(Append(sample, response, setup.Record(setup.RowFor(sample, response))))))
  }

  /** One write call takes the first `n` remaining bytes. */
  ghost predicate Write(setup: Setup, s: State, t: State, n: nat) {
    && s.process.Up? && s.process.append.Some?
    && var a := s.process.append.value;
    && 0 < n <= |a.remaining|
    && t == State(s.file + a.remaining[..n], s.process.(append := Some(a.(remaining := a.remaining[n..]))))
  }

  /** The whole row is on file: remember it and submit the next sample. */
  ghost predicate Commit(setup: Setup, s: State, t: State) {
    && s.process.Up? && s.process.append.Some? && s.process.append.value.remaining == []
    && s.process.cursor <= |setup.samples|
    && var a := s.process.append.value;
    && t == s.(process := Submit(setup.samples, s.process.(
                 append := None, rows := s.process.rows[a.sample.id := setup.RowFor(a.sample, a.response)])))
  }

  /** The process dies, between any two steps. */
  ghost predicate Crash(s: State, t: State) {
    s.process.Up? && t == State(s.file, Down)
  }

  ghost predicate Step(setup: Setup, s: State, t: State) {
    || Boot(setup, s, t)
    || FailedBoot(setup, s, t)
    || (exists sample, response :: Finish(setup, s, t, sample, response))
    || (exists n: nat :: Write(setup, s, t, n))
    || Commit(setup, s, t)
    || Crash(s, t)
  }

  /** A run from a file that reads back, with any number of crashes and resumes. */
  ghost predicate IsRun(setup: Setup, run: seq<State>) {
    && run != []
    && run[0].process.Down? && Readback(setup, run[0].file).Rows?
    && forall k :: 0 < k < |run| ==> Step(setup, run[k - 1], run[k])
  }

  // ------------------------------------------------------------------ invariant

  function IdsFrom(samples: seq<Sample>, cursor: nat): set<string>
    requires cursor <= |samples|
  {
    set k | cursor <= k < |samples| :: samples[k].id
  }

  function Writing(p: Process): set<string>
    requires p.Up?
  {
    if p.append.Some? then {p.append.value.sample.id} else {}
  }

  function Pending(setup: Setup, p: Process): set<string>
    requires p.Up? && p.cursor <= |setup.samples|
  {
    IdsFrom(setup.samples, p.cursor) - p.rows.Keys
  }

  /** Three disjoint sets that together are the manifest. */
  ghost predicate Partition(setup: Setup, rows: set<string>, busy: set<string>, pending: set<string>) {
    && rows !! busy !! pending
    && rows + busy + pending == IdsFrom(setup.samples, 0)
  }

  function Busy(p: Process): set<string>
    requires p.Up?
  {
    p.futures + Writing(p)
  }

  /** Committed, busy (in flight or being written) and pending ids partition the manifest;
      at most `workers` are busy, and exactly that many while any sample is pending. */
  ghost predicate PoolInv(setup: Setup, p: Process)
    requires p.Up?
  {
    && p.cursor <= |setup.samples|
    && Partition(setup, p.rows.Keys, Busy(p), Pending(setup, p))
    && p.futures !! Writing(p)
    && |Busy(p)| <= setup.workers
    && (Pending(setup, p) != {} ==> |Busy(p)| == setup.workers)
    && (forall id :: id in p.rows ==> p.rows[id].id == id)
    && (p.append.Some? ==> p.append.value.sample in setup.samples)
  }

  /** The file a process is appending to, cut at the record being written. */
  ghost predicate FileInv(setup: Setup, file: seq<byte>, p: Process)
    requires p.Up?
  {
    if p.append.None? then
      EndsCommitted(file) && Readback(setup, file) == Rows(p.rows)
    else
      var a := p.append.value;
      var record := setup.Record(setup.RowFor(a.sample, a.response));
      exists base :: BaseOf(setup, file, p.rows, record, a.remaining, base)
  }

  ghost predicate BaseOf(setup: Setup, file: seq<byte>, rows: map<string, Row>, record: seq<byte>,
                         remaining: seq<byte>, base: seq<byte>) {
    && EndsCommitted(base) && Readback(setup, base) == Rows(rows)
    && |remaining| <= |record|
    && remaining == record[|record| - |remaining|..]
    && file == base + record[..|record| - |remaining|]
  }

  ghost predicate Inv(setup: Setup, s: State) {
    && Readback(setup, s.file).Rows?
    && (s.process.Up? ==> PoolInv(setup, s.process) && FileInv(setup, s.file, s.process))
  }

  /** What a crash now and a resume later would recover. */
  function Recoverable(setup: Setup, s: State): map<string, Row>
    requires Readback(setup, s.file).Rows?
  {
    Readback(setup, s.file).rows
  }

  // ---------------------------------------------------- the invariant is inductive

  /** Taking the next sample removes exactly its id from the pending ones. */
  lemma PendingStep(setup: Setup, rows: map<string, Row>, cursor: nat)
    requires setup.UniqueIds() && cursor <= |setup.samples|
    ensures var samples, next := setup.samples, NextPending(setup.samples, rows, cursor);
            && (next == |samples| ==> IdsFrom(samples, cursor) - rows.Keys == IdsFrom(samples, next) - rows.Keys == {})
            && (next < |samples| ==>
                  && samples[next].id in IdsFrom(samples, cursor) - rows.Keys
                  && IdsFrom(samples, next + 1) - rows.Keys ==
                    (IdsFrom(samples, cursor) - rows.Keys) - {samples[next].id})
  {
    var samples, next := setup.samples, NextPending(setup.samples, rows, cursor);
    forall id | id in IdsFrom(samples, cursor) - rows.Keys
      ensures next < |samples| && (id == samples[next].id || id in IdsFrom(samples, next + 1))
    {
      var k :| cursor <= k < |samples| && samples[k].id == id;
      assert k >= next;
    }
    forall id | next < |samples| && id in IdsFrom(samples, next + 1)
      ensures id in IdsFrom(samples, cursor) && id != samples[next].id
    {
      var k :| next + 1 <= k < |samples| && samples[k].id == id;
    }
  }

  lemma StartOne(setup: Setup, rows: set<string>, busy: set<string>, pending: set<string>, id: string)
    requires Partition(setup, rows, busy, pending) && id in pending
    ensures Partition(setup, rows, busy + {id}, pending - {id}) && id !in busy
  {
  }

  lemma FinishOne(setup: Setup, rows: set<string>, busy: set<string>, pending: set<string>, id: string)
    requires Partition(setup, rows, busy, pending) && id in busy
    ensures Partition(setup, rows + {id}, busy - {id}, pending) && pending - {id} == pending
  {
  }

  lemma SubmitKeepsPool(setup: Setup, p: Process)
    requires setup.UniqueIds() && p.Up? && p.append.None? && p.cursor <= |setup.samples|
    requires Partition(setup, p.rows.Keys, p.futures, Pending(setup, p))
    ensures var q := Submit(setup.samples, p);
            && q.rows == p.rows && q.append.None?
            && Partition(setup, q.rows.Keys, q.futures, Pending(setup, q))
            && |q.futures| == |p.futures| + (if Pending(setup, p) == {} then 0 else 1)
            && (Pending(setup, p) == {} ==> Pending(setup, q) == {})
  {
    hide IdsFrom;
    hide Partition;
    PendingStep(setup, p.rows, p.cursor);
    if Pending(setup, p) != {} {
      var id := setup.samples[NextPending(setup.samples, p.rows, p.cursor)].id;
      StartOne(setup, p.rows.Keys, p.futures, Pending(setup, p), id);
    }
  }

  lemma {:induction false} FillMakesPool(setup: Setup, rows: map<string, Row>, n: nat)
    requires setup.UniqueIds() && rows.Keys <= IdsFrom(setup.samples, 0)
    ensures var q := Fill(setup.samples, Up(rows, {}, 0, None), n);
            && q.rows == rows && q.append.None?
            && Partition(setup, rows.Keys, q.futures, Pending(setup, q))
            && |q.futures| <= n && (Pending(setup, q) != {} ==> |q.futures| == n)
  {
    hide IdsFrom, Submit;
    if n > 0 {
      var k := n - 1;
      var p := Fill(setup.samples, Up(rows, {}, 0, None), k);
      assert Fill(setup.samples, Up(rows, {}, 0, None), n) == Submit(setup.samples, p);
      hide *;
      FillMakesPool(setup, rows, k);
      SubmitKeepsPool(setup, p);
    }
  }

  lemma {:induction false} LoadedWithinManifest(setup: Setup, lines: seq<seq<byte>>)
    requires Load(setup, lines).Rows?
    ensures Load(setup, lines).rows.Keys <= IdsFrom(setup.samples, 0)
    ensures forall id :: id in Load(setup, lines).rows ==> Load(setup, lines).rows[id].id == id
  {
    if lines != [] {
      LoadedWithinManifest(setup, lines[..|lines| - 1]);
    }
  }

  lemma DurableTwice(setup: Setup, file: seq<byte>)
    ensures Durable(Durable(file)) == Durable(file)
    ensures Readback(setup, Durable(file)) == Readback(setup, file)
  {
    DurableEndsCommitted(file);
    DurableEndsCommitted(Durable(file));
  }

  lemma BootKeepsInv(setup: Setup, s: State, t: State)
    requires setup.Valid() && Inv(setup, s) && Boot(setup, s, t)
    ensures Inv(setup, t) && Recoverable(setup, t) == Recoverable(setup, s) == t.process.rows
  {
    hide Partition;
    hide IdsFrom;
    hide Fill;
    hide Load;
    hide SplitLines;
    DurableTwice(setup, s.file);
    DurableEndsCommitted(s.file);
    LoadedWithinManifest(setup, SplitLines(Durable(s.file)));
    FillMakesPool(setup, Recoverable(setup, s), setup.workers);
    assert Busy(t.process) == t.process.futures;
  }

  lemma FinishKeepsInv(setup: Setup, s: State, t: State, sample: Sample, response: Response)
    requires setup.Valid() && Inv(setup, s) && Finish(setup, s, t, sample, response)
    ensures Inv(setup, t) && t.file == s.file
  {
    hide IdsFrom;
    hide Partition;
    hide Readback;
    var record := setup.Record(setup.RowFor(sample, response));
    assert Busy(t.process) == Busy(s.process);
    assert record[..0] == [] && record[0..] == record;
    assert BaseOf(setup, t.file, t.process.rows, record, record, s.file) by {
      assert s.file + record[..0] == s.file;
    }
  }

  /** Between the first byte and the newline nothing is recoverable; the newline makes
      exactly this row recoverable. */
  lemma PartlyWritten(setup: Setup, p: Process, file: seq<byte>, base: seq<byte>)
    requires setup.Valid() && p.Up? && p.append.Some? && PoolInv(setup, p)
    requires var a := p.append.value;
             BaseOf(setup, file, p.rows, setup.Record(setup.RowFor(a.sample, a.response)), a.remaining, base)
    ensures var a := p.append.value;
            && Readback(setup, file) ==
               Rows(if a.remaining == [] then p.rows[a.sample.id := setup.RowFor(a.sample, a.response)] else p.rows)
            && (a.remaining == [] ==> EndsCommitted(file))
  {
    var a := p.append.value;
    var row := setup.RowFor(a.sample, a.response);
    var record := setup.Record(row);
    assert NoBreaks(setup.encode(row));
    var n := |record| - |a.remaining|;
    if a.remaining == [] {
      assert record[..n] == record;
      assert a.sample.id !in p.rows;
      RecordLoads(setup, base, a.sample, a.response);
    } else {
      AppendPart(base, setup.encode(row), n);
      DurableEndsCommitted(base);
    }
  }

  /** Writing moves no id. */
  lemma WritePool(setup: Setup, p: Process, remaining: seq<byte>)
    requires p.Up? && p.append.Some? && PoolInv(setup, p)
    ensures PoolInv(setup, p.(append := Some(p.append.value.(remaining := remaining))))
  {
    hide Partition;
    hide IdsFrom;
    var q := p.(append := Some(p.append.value.(remaining := remaining)));
    assert Busy(q) == Busy(p) && Pending(setup, q) == Pending(setup, p);
  }

  lemma WriteBase(setup: Setup, file: seq<byte>, rows: map<string, Row>, record: seq<byte>, remaining: seq<byte>,
                  base: seq<byte>, n: nat)
    requires BaseOf(setup, file, rows, record, remaining, base) && n <= |remaining|
    ensures BaseOf(setup, file + remaining[..n], rows, record, remaining[n..], base)
  {
    hide Readback;
    var k := |record| - |remaining|;
    assert record[..k + n] == record[..k] + remaining[..n];
    assert file + remaining[..n] == base + record[..k + n];
    assert remaining[n..] == record[k + n..];
  }

  lemma WriteKeepsInv(setup: Setup, s: State, t: State, n: nat)
    requires setup.Valid() && Inv(setup, s) && Write(setup, s, t, n)
    ensures Inv(setup, t)
    ensures var a := s.process.append.value;
            Recoverable(setup, t) ==
              if n == |a.remaining| then Recoverable(setup, s)[a.sample.id := setup.RowFor(a.sample, a.response)]
              else Recoverable(setup, s)
    ensures s.process.append.value.sample.id !in Recoverable(setup, s)
  {
    hide PoolInv;
    hide Readback;
    hide BaseOf;
    var a := s.process.append.value;
    var record := setup.Record(setup.RowFor(a.sample, a.response));
    var base :| BaseOf(setup, s.file, s.process.rows, record, a.remaining, base);
    PartlyWritten(setup, s.process, s.file, base);
    WriteBase(setup, s.file, s.process.rows, record, a.remaining, base, n);
    WritePool(setup, s.process, a.remaining[n..]);
    PartlyWritten(setup, t.process, t.file, base);
    WrittenIdIsNew(setup, s.process);
  }

  lemma WrittenIdIsNew(setup: Setup, p: Process)
    requires p.Up? && p.append.Some? && PoolInv(setup, p)
    ensures p.append.value.sample.id !in p.rows
  {
    assert p.append.value.sample.id in Busy(p);
  }

  /** The written id moves to the rows. */
  lemma RecordOne(setup: Setup, p: Process, row: Row)
    requires p.Up? && p.append.Some? && PoolInv(setup, p) && row.id == p.append.value.sample.id
    ensures var q := p.(append := None, rows := p.rows[row.id := row]);
            && Partition(setup, q.rows.Keys, q.futures, Pending(setup, q))
            && Pending(setup, q) == Pending(setup, p)
            && |q.futures| == |Busy(p)| - 1
  {
    hide Partition;
    hide IdsFrom;
    var q := p.(append := None, rows := p.rows[row.id := row]);
    assert Writing(p) == {row.id};
    FinishOne(setup, p.rows.Keys, Busy(p), Pending(setup, p), row.id);
    assert q.rows.Keys == p.rows.Keys + {row.id};
    assert q.futures == Busy(p) - {row.id};
    assert Pending(setup, q) == Pending(setup, p) - {row.id};
  }

  /** ... and the freed slot takes the next sample. */
  lemma CommitPool(setup: Setup, p: Process, row: Row)
    requires setup.Valid() && p.Up? && p.append.Some? && PoolInv(setup, p)
    requires row.id == p.append.value.sample.id
    ensures var q := Submit(setup.samples, p.(append := None, rows := p.rows[row.id := row]));
            PoolInv(setup, q) && q.append.None? && q.rows == p.rows[row.id := row]
  {
    hide Partition;
    hide Pending;
    hide Submit;
    var q := p.(append := None, rows := p.rows[row.id := row]);
    RecordOne(setup, p, row);
    SubmitKeepsPool(setup, q);
    assert Busy(Submit(setup.samples, q)) == Submit(setup.samples, q).futures;
  }

  lemma CommitKeepsInv(setup: Setup, s: State, t: State)
    requires setup.Valid() && Inv(setup, s) && Commit(setup, s, t)
    ensures Inv(setup, t) && t.file == s.file
  {
    hide PoolInv;
    hide Readback;
    hide BaseOf;
    hide Submit;
    var p, a := s.process, s.process.append.value;
    var row := setup.RowFor(a.sample, a.response);
    var base :| BaseOf(setup, s.file, p.rows, setup.Record(row), a.remaining, base);
    PartlyWritten(setup, p, s.file, base);
    CommitPool(setup, p, row);
  }

  /** Every step of the protocol keeps the invariant, and recoverable rows are never lost,
      changed or overwritten: a step adds at most one, under an id that had none. */
  /** One more row, under a new id, telling what some request came back with. */
  ghost predicate AddsOne(setup: Setup, before: map<string, Row>, after: map<string, Row>) {
    exists row: Row, response ::
      row.id !in before && after == before[row.id := row] && SampleTold(setup, row, row.id, response)
  }

  lemma OneRequest(setup: Setup, p: Process, before: map<string, Row>)
    requires p.Up? && p.append.Some? && PoolInv(setup, p) && p.append.value.sample.id !in before
    ensures var a := p.append.value;
            AddsOne(setup, before, before[a.sample.id := setup.RowFor(a.sample, a.response)])
  {
    var a := p.append.value;
    var row := setup.RowFor(a.sample, a.response);
    assert Tells(row, setup.score, a.sample, a.response);
    assert SampleTold(setup, row, row.id, a.response);
  }

  lemma StepKeepsInv(setup: Setup, s: State, t: State)
    requires setup.Valid() && Inv(setup, s) && Step(setup, s, t)
    ensures Inv(setup, t)
    ensures Durable(s.file) <= Durable(t.file)
    ensures Recoverable(setup, t) == Recoverable(setup, s) ||
            AddsOne(setup, Recoverable(setup, s), Recoverable(setup, t))
  {
    hide PoolInv;
    hide FileInv;
    hide Readback;
    hide Submit;
    hide Fill;
    hide Durable;
    DurableTwice(setup, s.file);
    if Boot(setup, s, t) {
      BootKeepsInv(setup, s, t);
    } else if sample, response :| Finish(setup, s, t, sample, response) {
      FinishKeepsInv(setup, s, t, sample, response);
    } else if n: nat :| Write(setup, s, t, n) {
      WriteKeepsInv(setup, s, t, n);
      var a := s.process.append.value;
      if n == |a.remaining| { OneRequest(setup, s.process, Recoverable(setup, s)); }
      DurableGrows(s.file, a.remaining[..n]);
    } else if Commit(setup, s, t) {
      CommitKeepsInv(setup, s, t);
    }
  }

  // ------------------------------------------------------------------ whole runs

  lemma {:induction false} RunKeepsInv(setup: Setup, run: seq<State>, k: nat)
    requires setup.Valid() && IsRun(setup, run) && k < |run|
    ensures Inv(setup, run[k])
  {
    if k > 0 {
      RunKeepsInv(setup, run, k - 1);
      StepKeepsInv(setup, run[k - 1], run[k]);
    }
  }

  /** At every moment a live process holds every sample exactly once: committed, in flight,
      being written, or pending; never more than `workers` at once, and fewer only when
      nothing is pending. */
  lemma AlwaysPartitioned(setup: Setup, run: seq<State>, k: nat)
    requires setup.Valid() && IsRun(setup, run) && k < |run| && run[k].process.Up?
    ensures var p := run[k].process;
            && p.cursor <= |setup.samples|
            && p.rows.Keys !! p.futures !! Writing(p) !! Pending(setup, p)
            && p.rows.Keys + p.futures + Writing(p) + Pending(setup, p) == (set s | s in setup.samples :: s.id)
            && |p.futures| + |Writing(p)| <= setup.workers
            && (Pending(setup, p) != {} ==> |p.futures| + |Writing(p)| == setup.workers)
  {
    RunKeepsInv(setup, run, k);
    PartitionSpelledOut(setup, run[k].process);
  }

  lemma BusyParts(p: Process)
    requires p.Up? && p.futures !! Writing(p)
    ensures Busy(p) == p.futures + Writing(p)
    ensures |Busy(p)| == |p.futures| + |Writing(p)|
  {
  }

  lemma SplitBusy(setup: Setup, rows: set<string>, futures: set<string>, writing: set<string>, busy: set<string>,
                  pending: set<string>)
    requires Partition(setup, rows, busy, pending) && futures !! writing && busy == futures + writing
    ensures rows !! futures !! writing !! pending
    ensures rows + futures + writing + pending == IdsFrom(setup.samples, 0)
  {
    hide IdsFrom;
  }

  lemma PartitionSpelledOut(setup: Setup, p: Process)
    requires p.Up? && PoolInv(setup, p)
    ensures p.rows.Keys !! p.futures !! Writing(p) !! Pending(setup, p)
    ensures p.rows.Keys + p.futures + Writing(p) + Pending(setup, p) == (set s | s in setup.samples :: s.id)
    ensures |p.futures| + |Writing(p)| <= setup.workers
    ensures Pending(setup, p) != {} ==> |p.futures| + |Writing(p)| == setup.workers
  {
    hide IdsFrom, Pending;
    AllIds(setup);
    BusyParts(p);
    var pending, busy, writing := Pending(setup, p), Busy(p), Writing(p);
    assert Partition(setup, p.rows.Keys, busy, pending) && |busy| <= setup.workers && p.futures !! writing;
    assert pending != {} ==> |busy| == setup.workers;
    hide *;
    SplitBusy(setup, p.rows.Keys, p.futures, writing, busy, pending);
  }

  lemma AllIds(setup: Setup)
    ensures IdsFrom(setup.samples, 0) == (set s | s in setup.samples :: s.id)
  {
    forall s | s in setup.samples ensures s.id in IdsFrom(setup.samples, 0) {
      var i :| 0 <= i < |setup.samples| && setup.samples[i] == s;
    }
  }

  /** Safety over whole runs: what was recoverable at any moment is recoverable, unchanged,
      at every later moment, across any crashes and resumes; and the durable bytes of the
      file only ever grow. */
  lemma {:induction false} CommittedRowsSurvive(setup: Setup, run: seq<State>, i: nat, j: nat)
    requires setup.Valid() && IsRun(setup, run) && i <= j < |run|
    ensures Inv(setup, run[i]) && Inv(setup, run[j])
    ensures Durable(run[i].file) <= Durable(run[j].file)
    ensures forall id :: id in Recoverable(setup, run[i]) ==>
                           id in Recoverable(setup, run[j])
                             && Recoverable(setup, run[j])[id] == Recoverable(setup, run[i])[id]
    decreases j - i
  {
    RunKeepsInv(setup, run, i);
    if i < j {
      StepKeepsInv(setup, run[i], run[i + 1]);
      CommittedRowsSurvive(setup, run, i + 1, j);
    }
  }

  /** Over any run, a recoverable row was there at the start or tells what some request for its
      sample came back with. */
  lemma {:induction false} RowsTellResponses(setup: Setup, run: seq<State>, k: nat, id: string)
    requires setup.Valid() && IsRun(setup, run) && k < |run|
    ensures Inv(setup, run[0]) && Inv(setup, run[k])
    ensures id in Recoverable(setup, run[k]) ==>
              var row := Recoverable(setup, run[k])[id];
              || (id in Recoverable(setup, run[0]) && row == Recoverable(setup, run[0])[id])
              || exists response :: SampleTold(setup, row, id, response)
  {
    hide Inv, Readback, SampleTold;
    RunKeepsInv(setup, run, 0);
    RunKeepsInv(setup, run, k);
    InvReads(setup, run[0]);
    InvReads(setup, run[k]);
    if k > 0 {
      RowsTellResponses(setup, run, k - 1, id);
      InvReads(setup, run[k - 1]);
      StepKeepsInv(setup, run[k - 1], run[k]);
    }
  }

  lemma InvReads(setup: Setup, s: State)
    requires Inv(setup, s)
    ensures Readback(setup, s.file).Rows?
  {
  }

  /** A resume never refuses a file this protocol wrote, whatever byte it was cut at. */
  lemma ResumeAlwaysLoads(setup: Setup, run: seq<State>, k: nat, cut: nat)
    requires setup.Valid() && IsRun(setup, run) && k < |run|
    requires |Durable(run[k].file)| <= cut <= |run[k].file|
    ensures Readback(setup, run[k].file[..cut]) == Readback(setup, run[k].file)
    ensures Readback(setup, run[k].file).Rows?
  {
    RunKeepsInv(setup, run, k);
    var file := run[k].file;
    DurableEndsCommitted(file);
    DurableEndsCommitted(Durable(file));
    var tail := file[Committed(file)..cut];
    assert file[..cut] == Durable(file) + tail;
    assert forall b :: b in tail ==> b in file[Committed(file)..];
    DurableOfTail(Durable(file), tail);
  }

  /** A process with nothing in flight and nothing being written has one row for every
      sample, so the final report can list them in manifest order, and the file holds
      exactly these rows. */
  lemma FinishedRunIsComplete(setup: Setup, s: State)
    requires setup.Valid() && Inv(setup, s)
    requires s.process.Up? && s.process.futures == {} && s.process.append.None?
    ensures forall k :: 0 <= k < |setup.samples| ==>
              var id := setup.samples[k].id;
              id in s.process.rows && s.process.rows[id].id == id
    ensures |s.process.rows| == |setup.samples|
    ensures Recoverable(setup, s) == s.process.rows
  {
    assert Writing(s.process) == {};
    assert Pending(setup, s.process) == {};
    forall k | 0 <= k < |setup.samples| ensures setup.samples[k].id in s.process.rows.Keys {
      assert setup.samples[k].id in IdsFrom(setup.samples, 0);
    }
    IdsCounted(setup, 0);
  }

  lemma {:induction false} IdsCounted(setup: Setup, cursor: nat)
    requires setup.UniqueIds() && cursor <= |setup.samples|
    ensures |IdsFrom(setup.samples, cursor)| == |setup.samples| - cursor
    decreases |setup.samples| - cursor
  {
    var samples := setup.samples;
    if cursor < |samples| {
      IdsCounted(setup, cursor + 1);
      assert IdsFrom(samples, cursor) == IdsFrom(samples, cursor + 1) + {samples[cursor].id};
      assert forall k :: cursor + 1 <= k < |samples| ==> samples[k].id != samples[cursor].id;
    }
  }

  lemma IsStep(setup: Setup, s: State, t: State)
    ensures forall sample, response :: Finish(setup, s, t, sample, response) ==> Step(setup, s, t)
    ensures forall n: nat :: Write(setup, s, t, n) ==> Step(setup, s, t)
    ensures Boot(setup, s, t) || FailedBoot(setup, s, t) || Commit(setup, s, t) || Crash(s, t) ==> Step(setup, s, t)
  {
  }

  lemma RunExtends(setup: Setup, run: seq<State>, t: State)
    requires run != [] && IsRun(setup, run) && Step(setup, run[|run| - 1], t)
    ensures IsRun(setup, run + [t])
  {
    hide Step;
    forall k | 0 < k < |run + [t]| ensures Step(setup, (run + [t])[k - 1], (run + [t])[k]) {
      if k < |run| { assert Step(setup, run[k - 1], run[k]); }
    }
  }

  /** A later process that finds the file an earlier one left continues the earlier run, so
      what holds over runs holds across any number of processes. */
  lemma RunsJoin(setup: Setup, run: seq<State>, next: seq<State>) returns (all: seq<State>)
    requires IsRun(setup, run) && IsRun(setup, next) && next[0] == State(run[|run| - 1].file, Down)
    ensures IsRun(setup, all) && run <= all && |next| <= |all| && all[|all| - |next|..] == next
  {
    var last := run[|run| - 1];
    all := Join(run, next);
    assert last != next[0] ==> Step(setup, last, next[0]);
    JoinIndices(run, next);
    hide Step, Join;
    var shift := |all| - |next|;
    forall k | 0 < k < |all| ensures Step(setup, all[k - 1], all[k]) {
      if k < |run| {
        assert Step(setup, run[k - 1], run[k]);
      } else if k > shift {
        assert Step(setup, next[k - shift - 1], next[k - shift]);
      }
    }
  }

  /** One run after the other; they may share the state in between. */
  function Join(run: seq<State>, next: seq<State>): seq<State>
    requires run != [] && next != []
  {
    if run[|run| - 1] == next[0] then run + next[1..] else run + next
  }

  lemma JoinIndices(run: seq<State>, next: seq<State>)
    requires run != [] && next != []
    ensures var all := Join(run, next);
            var shift := |all| - |next|;
            && shift == (if run[|run| - 1] == next[0] then |run| - 1 else |run|)
            && run <= all && (forall k :: 0 <= k < |run| ==> all[k] == run[k])
            && all[shift..] == next && forall k :: shift <= k < |all| ==> all[k] == next[k - shift]
  {
  }

  // ------------------------------------------------------------------ the program

  datatype Outcome = Complete(ordered: seq<Row>) | Raised

  class Runner {
    const setup: Setup
    var file: seq<byte>
    var rows: map<string, Row>
    var futures: set<string>
    var cursor: nat
    /** Every protocol state passed through since the process started. */
    ghost var run: seq<State>
    /** What the ledger held at the start, and what each request since has come back with. */
    ghost var recovered: map<string, Row>
    ghost var answers: map<string, Response>

    constructor (setup: Setup, file: seq<byte>)
      ensures this.setup == setup && this.file == file
    {
      this.setup, this.file := setup, file;
      rows, futures, cursor, run := map[], {}, 0, [];
      recovered, answers := map[], map[];
    }

    ghost function Current(append: Option<Append>): State
      reads this
    {
      State(file, Up(rows, futures, cursor, append))
    }

    /** The recording is a run of the protocol that ends in the present state. */
    ghost predicate Recorded(append: Option<Append>)
      reads this
    {
      setup.Valid() && run != [] && IsRun(setup, run) && run[|run| - 1] == Current(append)
    }

    ghost predicate Faithful()
      reads this
    {
      FaithfulRows(setup, rows, recovered, answers)
    }

    /** Truncate to the last newline, then check and collect the lines one by one. */
    method ReadLedger() returns (loaded: Loaded)
      modifies this`file
      ensures file == Durable(old(file))
      ensures loaded == Readback(setup, old(file))
    {
      var data := file;
      var committed := Committed(data);
      if committed != |data| {
        file := data[..committed];
      }
      var lines := SplitLines(data[..committed]);
      var found: map<string, Row> := map[];
      for k := 0 to |lines|
        invariant file == Durable(data)
        invariant Load(setup, lines[..k]) == Rows(found)
      {
        assert lines[..k + 1][..k] == lines[..k];
        var checked := LoadLine(setup, found, lines[k]);
        if checked.Refused? {
          RefusalSticks(setup, lines, k + 1);
          return checked;
        }
        found := checked.rows;
      }
      assert lines[..|lines|] == lines;
      loaded := Rows(found);
    }

    /** Take the next sample nobody has a row for, and put it in flight. */
    method SubmitNext()
      requires cursor <= |setup.samples|
      modifies this`cursor, this`futures
      ensures Up(rows, futures, cursor, None) == Submit(setup.samples, old(Up(rows, futures, cursor, None)))
    {
      while cursor < |setup.samples| && setup.samples[cursor].id in rows
        invariant cursor <= |setup.samples| && futures == old(futures)
        invariant NextPending(setup.samples, rows, cursor) == NextPending(setup.samples, rows, old(cursor))
        decreases |setup.samples| - cursor
      {
        cursor := cursor + 1;
      }
      if cursor < |setup.samples| {
        futures := futures + {setup.samples[cursor].id};
        cursor := cursor + 1;
      }
    }

    /** Write the record with as many write calls as it takes; a call that takes nothing
        raises and leaves a partial record behind. */
    method AppendRow(sample: Sample, response: Response) returns (ok: bool)
      requires Recorded(Some(Append(sample, response, setup.Record(setup.RowFor(sample, response)))))
      modifies this`file, this`run
      ensures run != [] && old(run) <= run
      ensures ok ==> Recorded(Some(Append(sample, response, [])))
      ensures ok ==> file == old(file) + setup.Record(setup.RowFor(sample, response))
      ensures !ok ==> CutOff(old(file), setup.Record(setup.RowFor(sample, response)), file)
      ensures !ok ==> IsRun(setup, run) && run[|run| - 1].file == file
    {
      hide IsRun, Step, Setup.Valid, Setup.Record, Setup.RowFor;
      var record := setup.Record(setup.RowFor(sample, response));
      var remaining := record;
      while remaining != []
        invariant old(run) <= run
        invariant Recorded(Some(Append(sample, response, remaining)))
        invariant file + remaining == old(file) + record && |old(file)| <= |file|
        decreases |remaining|
      {
        var written: int :| written <= |remaining|;
        if written <= 0 {
          CutWhereLeft(old(file), record, file, remaining);
          return false;
        }
        ghost var before := Current(Some(Append(sample, response, remaining)));
        file := file + remaining[..written];
        remaining := remaining[written..];
        ghost var after := Current(Some(Append(sample, response, remaining)));
        assert Write(setup, before, after, written);
        IsStep(setup, before, after);
        RunExtends(setup, run, after);
        run := run + [after];
      }
      assert file + [] == file;
      ok := true;
    }

    /** One finished request: append its row, remember it, start the next request. */
    method HandleFinished(id: string) returns (ok: bool)
      requires Recorded(None) && Faithful() && id in futures
      modifies this
      ensures run != [] && old(run) <= run && recovered == old(recovered)
      ensures ok ==> Recorded(None) && Faithful() && rows.Keys == old(rows.Keys) + {id} && id !in old(rows)
      ensures ok ==> old(futures) - {id} <= futures
      ensures !ok ==> IsRun(setup, run) && run[|run| - 1].file == file
    {
      hide Inv, FaithfulRows, IsRun, Step, Submit, Setup.Valid, Setup.RowFor, Setup.Record;
      RunSoFar(setup, run);
      ghost var start := Current(None);
      var sample := SampleOf(setup.samples, id).value;
      var response: Response := *;
      futures := futures - {id};
      var row := setup.RowFor(sample, response);
      ghost var append := Append(sample, response, setup.Record(row));
      assert Finish(setup, start, Current(Some(append)), sample, response);
      IsStep(setup, start, Current(Some(append)));
      RunExtends(setup, run, Current(Some(append)));
      run := run + [Current(Some(append))];
      ok := AppendRow(sample, response);
      if !ok {
        return;
      }
      RunSoFar(setup, run);
      ghost var written := Current(Some(Append(sample, response, [])));
      OneAnswer(setup, rows, recovered, answers, sample, response);
      rows := rows[id := row];
      answers := answers[id := response];
      SubmitNext();
      assert Commit(setup, written, Current(None));
      IsStep(setup, written, Current(None));
      RunExtends(setup, run, Current(None));
      run := run + [Current(None)];
    }

    /** Recover the ledger and fill the pool. */
    method Resume() returns (ok: bool)
      requires setup.Valid()
      modifies this
      ensures ok <==> Readback(setup, old(file)).Rows?
      ensures !ok ==> file == Durable(old(file))
      ensures ok ==> Recorded(None) && run[0] == State(old(file), Down)
      ensures ok ==> Faithful() && answers == map[] && recovered == Readback(setup, old(file)).rows
    {
      hide Readback;
      hide Fill;
      hide Submit;
      var loaded := ReadLedger();
      if loaded.Refused? {
        return false;
      }
      ghost var down := State(old(file), Down);
      rows, futures, cursor := loaded.rows, {}, 0;
      recovered, answers := loaded.rows, map[];
      FilledOneMore(setup.samples, rows, 0);
      for n := 0 to setup.workers
        invariant file == Durable(old(file)) && rows == loaded.rows && cursor <= |setup.samples|
        invariant recovered == loaded.rows && answers == map[]
        invariant Up(rows, futures, cursor, None) == Fill(setup.samples, Up(rows, {}, 0, None), n)
      {
        SubmitNext();
        FilledOneMore(setup.samples, rows, n);
      }
      run := [down];
      assert Boot(setup, down, Current(None));
      RunExtends(setup, run, Current(None));
      run := run + [Current(None)];
      ok := true;
    }

    /** All requests one wait reported, in any order. */
    method HandleAll(finished: set<string>) returns (ok: bool)
      requires Recorded(None) && Faithful() && finished <= futures && finished != {}
      modifies this
      ensures run != [] && old(run) <= run && recovered == old(recovered)
      ensures ok ==> Faithful()
      ensures ok ==> Recorded(None) && rows.Keys == old(rows.Keys) + finished && finished !! old(rows.Keys)
      ensures !ok ==> IsRun(setup, run) && run[|run| - 1].file == file
    {
      hide IsRun, FaithfulRows;
      var done := finished;
      ok := true;
      while done != {}
        invariant run != [] && old(run) <= run && Recorded(None)
        invariant Faithful() && recovered == old(recovered)
        invariant done <= futures && done <= finished
        invariant rows.Keys == old(rows.Keys) + (finished - done) && finished - done !! old(rows.Keys)
        decreases done
      {
        var id :| id in done;
        ok := HandleFinished(id);
        if !ok {
          return;
        }
        done := done - {id};
      }
    }

    /** Handle what finishes until nothing is in flight. */
    method Drain() returns (ok: bool)
      requires Recorded(None) && Faithful()
      modifies this
      ensures run != [] && old(run) <= run && recovered == old(recovered)
      ensures ok ==> Recorded(None) && Faithful() && futures == {}
      ensures !ok ==> IsRun(setup, run) && run[|run| - 1].file == file
    {
      hide Inv, IsRun, Readback, IdsFrom, Step, Setup.Valid, FaithfulRows;
      ok := true;
      RunSoFar(setup, run);
      while futures != {}
        invariant run != [] && old(run) <= run && Recorded(None) && Faithful() && recovered == old(recovered)
        decreases IdsFrom(setup.samples, 0) - rows.Keys
      {
        var done :| done <= futures && done != {};
        ghost var before := rows.Keys;
        ok := HandleAll(done);
        if !ok {
          return;
        }
        RunSoFar(setup, run);
        FewerLeft(IdsFrom(setup.samples, 0), before, done, rows.Keys);
      }
    }

    /** The rows in manifest order. */
    method Ordered() returns (ordered: seq<Row>)
      requires forall k :: 0 <= k < |setup.samples| ==> setup.samples[k].id in rows
      ensures |ordered| == |setup.samples|
      ensures forall k :: 0 <= k < |ordered| ==> ordered[k] == rows[setup.samples[k].id]
    {
      ordered := [];
      for k := 0 to |setup.samples|
        invariant |ordered| == k
        invariant forall l :: 0 <= l < k ==> ordered[l] == rows[setup.samples[l].id]
      {
        ordered := ordered + [rows[setup.samples[k].id]];
      }
    }

    /** The whole evaluation: resume, keep the pool busy until nothing is in flight, then
        list the rows in manifest order. Requests finish in any order and any number at a
        time. */
    method Evaluate() returns (outcome: Outcome)
      requires setup.Valid()
      modifies this
      ensures Readback(setup, old(file)).Refused? ==> outcome == Raised && file == Durable(old(file))
      ensures Readback(setup, old(file)).Rows? ==>
                && run != [] && IsRun(setup, run)
                && run[0] == State(old(file), Down) && run[|run| - 1].file == file
      ensures outcome.Complete? ==>
                Readback(setup, file).Rows? && Lists(setup, Readback(setup, file).rows, outcome.ordered)
      ensures outcome.Complete? ==> recovered == Readback(setup, old(file)).rows && recovered.Keys !! answers.Keys
      ensures outcome.Complete? ==>
                forall k :: 0 <= k < |setup.samples| ==>
                              RowTold(setup, outcome.ordered[k], setup.samples[k], recovered, answers)
    {
      hide Inv, IsRun, Readback, IdsFrom, Step, Setup.Valid, FaithfulRows, Tells;
      var ok := Resume();
      if !ok {
        return Raised;
      }
      ok := Drain();
      if !ok {
        return Raised;
      }
      RunKeepsInv(setup, run, |run| - 1);
      FinishedRunIsComplete(setup, Current(None));
      var ordered := Ordered();
      EachRowTold(setup, rows, recovered, answers, ordered);
      outcome := Complete(ordered);
    }
  }

  ghost predicate SampleTold(setup: Setup, row: Row, id: string, response: Response) {
    exists sample :: sample in setup.samples && sample.id == id && Tells(row, setup.score, sample, response)
  }

  /** Every row is a recovered one, unchanged, or tells what its request came back with. */
  ghost predicate FaithfulRows(setup: Setup, rows: map<string, Row>, recovered: map<string, Row>,
                               answers: map<string, Response>)
  {
    && rows.Keys == recovered.Keys + answers.Keys && recovered.Keys !! answers.Keys
    && (forall id :: id in recovered ==> rows[id] == recovered[id])
    && forall id :: id in answers ==> SampleTold(setup, rows[id], id, answers[id])
  }

  /** The row of one sample: recovered, or of a request made since. */
  ghost predicate RowTold(setup: Setup, row: Row, sample: Sample, recovered: map<string, Row>,
                          answers: map<string, Response>)
  {
    if sample.id in recovered then row == recovered[sample.id]
    else sample.id in answers && Tells(row, setup.score, sample, answers[sample.id])
  }

  /** The row made for a request is the one that tells what it came back with. */
  lemma RowIsTold(setup: Setup, row: Row, sample: Sample, response: Response)
    ensures Tells(row, setup.score, sample, response) <==> row == setup.RowFor(sample, response)
  {
  }

  lemma OneAnswer(setup: Setup, rows: map<string, Row>, recovered: map<string, Row>, answers: map<string, Response>,
                  sample: Sample, response: Response)
    requires FaithfulRows(setup, rows, recovered, answers) && sample in setup.samples && sample.id !in rows
    ensures FaithfulRows(setup, rows[sample.id := setup.RowFor(sample, response)], recovered,
                         answers[sample.id := response])
  {
    var row := setup.RowFor(sample, response);
    RowIsTold(setup, row, sample, response);
    assert SampleTold(setup, row, sample.id, response);
    hide Tells, SampleTold, Setup.RowFor;
    var more := answers[sample.id := response];
    assert more.Keys == answers.Keys + {sample.id};
  }

  lemma EachRowTold(setup: Setup, rows: map<string, Row>, recovered: map<string, Row>, answers: map<string, Response>,
                    ordered: seq<Row>)
    requires setup.Valid() && FaithfulRows(setup, rows, recovered, answers) && |ordered| == |setup.samples|
    requires forall k :: 0 <= k < |ordered| ==> setup.samples[k].id in rows && ordered[k] == rows[setup.samples[k].id]
    ensures recovered.Keys !! answers.Keys
    ensures forall k :: 0 <= k < |ordered| ==> RowTold(setup, ordered[k], setup.samples[k], recovered, answers)
  {
    hide Tells, SampleTold;
    forall k | 0 <= k < |ordered| ensures RowTold(setup, ordered[k], setup.samples[k], recovered, answers) {
      var sample := setup.samples[k];
      assert sample.id in recovered.Keys + answers.Keys;
      if sample.id in answers { SameSample(setup, ordered[k], sample, answers[sample.id]); }
    }
  }

  lemma SameSample(setup: Setup, row: Row, sample: Sample, response: Response)
    requires setup.UniqueIds() && sample in setup.samples && SampleTold(setup, row, sample.id, response)
    ensures Tells(row, setup.score, sample, response)
  {
    var other :| other in setup.samples && other.id == sample.id && Tells(row, setup.score, other, response);
    UniqueSample(setup, sample);
    UniqueSample(setup, other);
  }

  /** One row per sample, in manifest order, each the recovered row of that sample, and
      no other rows recovered. */
  ghost predicate Lists(setup: Setup, rows: map<string, Row>, ordered: seq<Row>) {
    && |ordered| == |setup.samples| == |rows|
    && forall k :: 0 <= k < |ordered| ==>
         var id := setup.samples[k].id;
         id in rows && ordered[k] == rows[id] && ordered[k].id == id
  }

  lemma FewerLeft(all: set<string>, before: set<string>, done: set<string>, after: set<string>)
    requires after <= all && after == before + done && done !! before && done != {}
    ensures all - after < all - before
  {
    var id :| id in done;
    assert id in all - before && id !in all - after;
  }

  lemma FilledOneMore(samples: seq<Sample>, rows: map<string, Row>, n: nat)
    ensures Fill(samples, Up(rows, {}, 0, None), 0) == Up(rows, {}, 0, None)
    ensures Fill(samples, Up(rows, {}, 0, None), n + 1) == Submit(samples, Fill(samples, Up(rows, {}, 0, None), n))
  {
  }

  /** What the program relies on between steps. */
  lemma RunSoFar(setup: Setup, run: seq<State>)
    requires setup.Valid() && run != [] && IsRun(setup, run) && run[|run| - 1].process.Up?
    ensures var p := run[|run| - 1].process;
            && p.cursor <= |setup.samples|
            && p.rows.Keys <= IdsFrom(setup.samples, 0)
            && (forall id :: id in p.futures ==> SampleOf(setup.samples, id).Some? && id !in p.rows)
            && (p.append.Some? ==> p.append.value.sample.id !in p.rows)
  {
    RunKeepsInv(setup, run, |run| - 1);
    var p := run[|run| - 1].process;
    forall id | id in p.futures ensures SampleOf(setup.samples, id).Some? && id !in p.rows {
      BusyIsKnown(setup, p, id);
    }
    if p.append.Some? { WrittenIdIsNew(setup, p); }
  }

  lemma BusyIsKnown(setup: Setup, p: Process, id: string)
    requires p.Up? && PoolInv(setup, p) && id in p.futures
    ensures SampleOf(setup.samples, id).Some? && id !in p.rows
  {
    assert id in Busy(p);
    assert id in IdsFrom(setup.samples, 0);
  }
}
