/** Append-only files of newline-terminated records.

  A record is committed by its final newline. `Durable` is the part of a file that a
  reader trusts, `SplitLines` cuts it where a byte string's `splitlines` does (line
  feed, carriage return, or the pair), and the lemmas say what appending does to both.
  */
module Framing {
  type byte = x: int | 0 <= x < 256

  const NEWLINE: byte := 10
  const RETURN: byte := 13

  /** Number of bytes up to and including the last newline. */
  function Committed(data: seq<byte>): (n: nat)
    ensures n <= |data|
  {
    if data == [] then 0
    else if data[|data| - 1] == NEWLINE then |data|
    else Committed(data[..|data| - 1])
  }

  function Durable(data: seq<byte>): (d: seq<byte>) {
    data[..Committed(data)]
  }

  predicate IsBreak(b: byte) {
    b == NEWLINE || b == RETURN
  }

  function FirstBreak(data: seq<byte>): (k: nat)
    ensures k <= |data|
    ensures forall i :: 0 <= i < k ==> !IsBreak(data[i])
    ensures k < |data| ==> IsBreak(data[k])
  {
    if data == [] || IsBreak(data[0]) then 0 else 1 + FirstBreak(data[1..])
  }

  function BreakEnd(data: seq<byte>, k: nat): (e: nat)
    requires k < |data|
    ensures k < e <= |data|
  {
    if data[k] == RETURN && k + 1 < |data| && data[k + 1] == NEWLINE then k + 2 else k + 1
  }

  function SplitLines(data: seq<byte>): seq<seq<byte>>
    decreases |data|
  {
    if data == [] then [] else
    var k := FirstBreak(data);
    if k == |data| then [data] else [data[..k]] + SplitLines(data[BreakEnd(data, k)..])
  }

  /** The lines with their endings, one after the other. */
  function Glued(lines: seq<seq<byte>>, endings: seq<seq<byte>>): seq<byte>
    requires |lines| == |endings|
  {
    if lines == [] then [] else lines[0] + endings[0] + Glued(lines[1..], endings[1..])
  }

  /** Every ending is a line feed, a carriage return or both, in that order, and as long as it
      can be; only a last line that is not empty may do without. */
  ghost predicate Endings(lines: seq<seq<byte>>, endings: seq<seq<byte>>)
    decreases |lines|
  {
    && |lines| == |endings|
    && (lines == [] ||
        (&& (forall b :: b in lines[0] ==> b != 10 && b != 13)
         && (endings[0] == [10] || endings[0] == [13] || endings[0] == [13, 10]
             || (endings[0] == [] && |lines| == 1 && lines[0] != []))
         && (endings[0] == [13] && |lines| > 1 ==> !([10] <= lines[1] + endings[1]))
         && Endings(lines[1..], endings[1..])))
  }

  lemma GluedStart(lines: seq<seq<byte>>, endings: seq<seq<byte>>)
    requires lines != [] && Endings(lines, endings)
    ensures Glued(lines, endings) != [] && ([10] <= lines[0] + endings[0] <==> [10] <= Glued(lines, endings))
  {
    var first := lines[0] + endings[0];
    assert first != [];
    assert Glued(lines, endings)[0] == first[0];
  }

  lemma GluedMore(line: seq<byte>, ending: seq<byte>, lines: seq<seq<byte>>, endings: seq<seq<byte>>)
    requires |lines| == |endings|
    ensures Glued([line] + lines, [ending] + endings) == line + ending + Glued(lines, endings)
  {
    assert ([line] + lines)[1..] == lines && ([ending] + endings)[1..] == endings;
  }

  /** The first line, its ending and what is left to split. */
  lemma FirstCut(data: seq<byte>) returns (line: seq<byte>, ending: seq<byte>, rest: seq<byte>)
    requires data != []
    ensures data == line + ending + rest && SplitLines(data) == [line] + SplitLines(rest) && |rest| < |data|
    ensures forall b :: b in line ==> b != 10 && b != 13
    ensures || ending == [10] || (ending == [13] && !([10] <= rest)) || ending == [13, 10]
            || (ending == [] && SplitLines(rest) == [] && line != [])
  {
    var k := FirstBreak(data);
    line := data[..k];
    if k == |data| {
      ending, rest := [], [];
    } else {
      var e := BreakEnd(data, k);
      ending, rest := data[k..e], data[e..];
      assert ending == if e == k + 1 then [data[k]] else [data[k], data[k + 1]];
    }
  }

  /** Splitting loses nothing but the endings: the data is its lines, each without a line feed
      or carriage return, with such endings between them. */
  lemma {:induction false} SplitEndings(data: seq<byte>) returns (endings: seq<seq<byte>>)
    ensures Endings(SplitLines(data), endings) && Glued(SplitLines(data), endings) == data
    decreases |data|
  {
    if data == [] {
      return [];
    }
    hide *;
    var line, ending, rest := FirstCut(data);
    var more := SplitEndings(rest);
    var lines := SplitLines(rest);
    SameNumber(lines, more);
    if lines != [] { GluedStart(lines, more); }
    GluedMore(line, ending, lines, more);
    EndingsOne(line, ending, lines, more);
    endings := [ending] + more;
  }

  lemma SameNumber(lines: seq<seq<byte>>, endings: seq<seq<byte>>)
    requires Endings(lines, endings)
    ensures |lines| == |endings|
  {
  }

  lemma EndingsOne(line: seq<byte>, ending: seq<byte>, lines: seq<seq<byte>>, endings: seq<seq<byte>>)
    requires Endings(lines, endings) && forall b :: b in line ==> b != 10 && b != 13
    requires || ending == [10] || ending == [13] || ending == [13, 10]
             || (ending == [] && lines == [] && line != [])
    requires ending == [13] && lines != [] ==> !([10] <= lines[0] + endings[0])
    ensures Endings([line] + lines, [ending] + endings)
  {
    assert ([line] + lines)[1..] == lines && ([ending] + endings)[1..] == endings;
  }

  /** Bytes that cannot end a line. */
  predicate NoBreaks(data: seq<byte>) {
    forall b :: b in data ==> !IsBreak(b)
  }

  predicate EndsCommitted(data: seq<byte>) {
    data == [] || data[|data| - 1] == NEWLINE
  }

  /** `after` is `before` and a proper beginning of `record`. */
  ghost predicate CutOff(before: seq<byte>, record: seq<byte>, after: seq<byte>) {
    exists n: nat :: n < |record| && after == before + record[..n]
  }

  lemma CutWhereLeft(before: seq<byte>, record: seq<byte>, after: seq<byte>, remaining: seq<byte>)
    requires remaining != [] && after + remaining == before + record && |before| <= |after|
    ensures CutOff(before, record, after)
  {
    var n, all := |after| - |before|, before + record;
    assert after == all[..|after|] == before + record[..n];
  }

  lemma DurableEndsCommitted(data: seq<byte>)
    ensures EndsCommitted(Durable(data))
    ensures EndsCommitted(data) ==> Durable(data) == data
    ensures NEWLINE !in data[Committed(data)..]
  {
    if data != [] && data[|data| - 1] != NEWLINE {
      var init := data[..|data| - 1];
      DurableEndsCommitted(init);
      var c := Committed(init);
      assert Committed(data) == c;
      assert data[..c] == init[..c];
      assert data[c..] == init[c..] + [data[|data| - 1]];
    }
  }

  /** An unfinished record adds nothing durable. */
  lemma {:induction false} DurableOfTail(data: seq<byte>, tail: seq<byte>)
    requires NEWLINE !in tail
    ensures Durable(data + tail) == Durable(data)
  {
    if tail == [] {
      assert data + tail == data;
    } else {
      var init := tail[..|tail| - 1];
      assert forall b :: b in init ==> b in tail;
      assert (data + tail)[..|data + tail| - 1] == data + init;
      DurableOfTail(data, init);
      assert Committed(data + tail) == Committed(data + init);
    }
  }

  /** Appending anything keeps what was durable. */
  lemma {:induction false} DurableGrows(file: seq<byte>, more: seq<byte>)
    ensures Durable(file) <= Durable(file + more)
  {
    if more == [] {
      assert file + more == file;
    } else {
      var init := more[..|more| - 1];
      assert (file + more)[..|file + more| - 1] == file + init;
      DurableGrows(file, init);
      if more[|more| - 1] == NEWLINE {
        assert Durable(file + more) == file + more;
      } else {
        assert Durable(file + more) == Durable(file + init);
      }
    }
  }

  lemma FirstBreakAppend(data: seq<byte>, more: seq<byte>)
    requires FirstBreak(data) < |data|
    ensures FirstBreak(data + more) == FirstBreak(data)
  {
    var k, l := FirstBreak(data), FirstBreak(data + more);
    assert (data + more)[k] == data[k];
    if l < k { assert (data + more)[l] == data[l]; }
  }

  /** Lines of a committed file are not disturbed by what is appended to it. */
  lemma {:induction false} SplitAppend(data: seq<byte>, more: seq<byte>)
    requires EndsCommitted(data)
    ensures SplitLines(data + more) == SplitLines(data) + SplitLines(more)
    decreases |data|
  {
    if data == [] {
      assert data + more == more;
    } else {
      var k := FirstBreak(data);
      assert IsBreak(data[|data| - 1]);
      FirstBreakAppend(data, more);
      var e := BreakEnd(data, k);
      assert BreakEnd(data + more, k) == e;
      assert (data + more)[..k] == data[..k];
      assert (data + more)[e..] == data[e..] + more;
      SplitAppend(data[e..], more);
    }
  }

  lemma SplitRecord(body: seq<byte>)
    requires NoBreaks(body)
    ensures SplitLines(body + [NEWLINE]) == [body]
  {
    var line := body + [NEWLINE];
    var k := FirstBreak(line);
    assert line[|body|] == NEWLINE;
    forall i | 0 <= i < |body| ensures !IsBreak(line[i]) { assert line[i] in body; }
    assert line[..k] == body;
    assert line[BreakEnd(line, k)..] == [];
  }

  /** Appending one whole record to a committed file appends one line. */
  lemma AppendRecord(data: seq<byte>, body: seq<byte>)
    requires EndsCommitted(data) && NoBreaks(body)
    ensures var after := data + (body + [NEWLINE]);
            && Durable(after) == after
            && SplitLines(after) == SplitLines(data) + [body]
  {
    SplitAppend(data, body + [NEWLINE]);
    SplitRecord(body);
    DurableEndsCommitted(data + (body + [NEWLINE]));
  }

  /** Appending any proper part of a record leaves the durable part alone. */
  lemma AppendPart(data: seq<byte>, body: seq<byte>, n: nat)
    requires EndsCommitted(data) && NoBreaks(body) && n <= |body|
    ensures Durable(data + (body + [NEWLINE])[..n]) == data
  {
    assert (body + [NEWLINE])[..n] == body[..n];
    assert forall b :: b in body[..n] ==> b in body;
    DurableOfTail(data, body[..n]);
    DurableEndsCommitted(data);
  }
}
