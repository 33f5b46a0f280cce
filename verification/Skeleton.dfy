/** Blanking line comments and string contents of a source text without moving anything, and
  finding the brace that closes an opening one on the result.
  */
module Skeleton {
  import opened Options

  const QUOTE := '"'
  const NEWLINE_CHAR := '\n'

  /** Where the scan is before the next character: in code, in a line comment, in a string,
      or in a string just after a backslash. */
  datatype Mode = Code | Comment | Text | Escape

  predicate CommentStart(src: string, i: nat)
    requires i < |src|
  {
    src[i] == '/' && i + 1 < |src| && src[i + 1] == '/'
  }

  /** The mode after character `i`. */
  function NextMode(src: string, i: nat, mode: Mode): Mode
    requires i < |src|
  {
    match mode
    case Code => if CommentStart(src, i) then Comment else if src[i] == QUOTE then Text else Code
    case Comment => if src[i] == NEWLINE_CHAR then Code else Comment
    case Text => if src[i] == QUOTE then Code else if src[i] == '\\' then Escape else Text
    case Escape => Text
  }

  function ModeAt(src: string, i: nat): Mode
    requires i <= |src|
  {
    if i == 0 then Code else NextMode(src, i - 1, ModeAt(src, i - 1))
  }

  /** Character `i` belongs to a comment or a string, delimiters included. */
  predicate Blanked(src: string, i: nat)
    requires i < |src|
  {
    match ModeAt(src, i)
    case Code => CommentStart(src, i) || src[i] == QUOTE
    case Comment => src[i] != NEWLINE_CHAR
    case Text => src[i] != NEWLINE_CHAR
    case Escape => src[i] != NEWLINE_CHAR
  }

  /** The same text with those characters replaced by spaces. */
  function Skeleton(src: string): (out: string)
    ensures |out| == |src|
    ensures forall i :: 0 <= i < |src| ==> out[i] == if Blanked(src, i) then ' ' else src[i]
  {
    seq(|src|, i requires 0 <= i < |src| => if Blanked(src, i) then ' ' else src[i])
  }

  // ----------------------------------------------------------------- the program

  /** First newline at or after `i`, or the end of the text. */
  method LineEnd(src: string, i: nat) returns (j: nat)
    requires i <= |src|
    ensures i <= j <= |src| && (forall k :: i <= k < j ==> src[k] != NEWLINE_CHAR)
    ensures j < |src| ==> src[j] == NEWLINE_CHAR
  {
    j := i;
    while j < |src| && src[j] != NEWLINE_CHAR
      invariant i <= j <= |src| && forall k :: i <= k < j ==> src[k] != NEWLINE_CHAR
    {
      j := j + 1;
    }
  }

  lemma {:induction false} CommentModes(src: string, i: nat, j: nat)
    requires i < j <= |src| && ModeAt(src, i) == Code && CommentStart(src, i)
    requires forall k :: i <= k < j ==> src[k] != NEWLINE_CHAR
    ensures ModeAt(src, j) == Comment
    ensures forall k :: i < k <= j ==> ModeAt(src, k) == Comment
    decreases j
  {
    if i + 1 < j { CommentModes(src, i, j - 1); }
  }

  /** The output so far is the skeleton up to `i` and the input from there. */
  ghost predicate Progress(src: string, out: seq<char>, i: nat) {
    && |out| == |src| && i <= |src|
    && (forall k :: 0 <= k < i ==> out[k] == if Blanked(src, k) then ' ' else src[k])
    && (forall k :: i <= k < |src| ==> out[k] == src[k])
  }

  /** Between tokens: in code, or at the newline that ends a comment. */
  ghost predicate AtToken(src: string, i: nat)
    requires i <= |src|
  {
    ModeAt(src, i) == Code || (ModeAt(src, i) == Comment && (i < |src| ==> src[i] == NEWLINE_CHAR))
  }

  /** Overwrite one character and move on. */
  lemma OneMore(src: string, before: seq<char>, after: seq<char>, i: nat)
    requires i < |src| && Progress(src, before, i) && |after| == |src|
    requires forall k :: 0 <= k < |src| && k != i ==> after[k] == before[k]
    requires after[i] == if Blanked(src, i) then ' ' else src[i]
    ensures Progress(src, after, i + 1)
  {
  }

  method BlankComment(src: string, out: array<char>, i: nat) returns (j: nat)
    requires i < |src| && ModeAt(src, i) == Code && CommentStart(src, i)
    requires out.Length == |src| && Progress(src, out[..], i)
    modifies out
    ensures i < j <= |src| && AtToken(src, j) && Progress(src, out[..], j)
  {
    j := LineEnd(src, i);
    for k := i to j
      invariant Progress(src, out[..], k)
    {
      if k > i { CommentModes(src, i, k); }
      ghost var before := out[..];
      out[k] := ' ';
      OneMore(src, before, out[..], k);
    }
    CommentModes(src, i, j);
  }

  /** From an opening quote past the closing one. A backslash also blanks the character
      after it, unless that is a newline; the text may end anywhere. */
  method BlankString(src: string, out: array<char>, start: nat) returns (i: nat)
    requires start < |src| && ModeAt(src, start) == Code && src[start] == QUOTE && !CommentStart(src, start)
    requires out.Length == |src| && Progress(src, out[..], start)
    modifies out
    ensures start < i <= |src| + 1 && Progress(src, out[..], if i <= |src| then i else |src|)
    ensures i < |src| ==> AtToken(src, i)
  {
    ghost var before := out[..];
    out[start] := ' ';
    OneMore(src, before, out[..], start);
    i := start + 1;
    while i < |src| && src[i] != QUOTE
      invariant start < i <= |src| + 1
      invariant Progress(src, out[..], if i <= |src| then i else |src|)
      invariant i <= |src| ==> ModeAt(src, i) == Text
      decreases |src| + 1 - i
    {
      if src[i] == '\\' {
        before := out[..];
        out[i] := ' ';
        OneMore(src, before, out[..], i);
        i := i + 1;
      }
      if i < |src| {
        before := out[..];
        if src[i] != NEWLINE_CHAR {
          out[i] := ' ';
        }
        OneMore(src, before, out[..], i);
      }
      i := i + 1;
    }
    if i < |src| {
      before := out[..];
      out[i] := ' ';
      OneMore(src, before, out[..], i);
      i := i + 1;
    }
  }

  lemma StartInCode(src: string)
    ensures AtToken(src, 0)
  {
  }

  lemma PlainCharacter(src: string, i: nat)
    requires i < |src| && AtToken(src, i)
    ensures CommentStart(src, i) || src[i] == QUOTE ==> ModeAt(src, i) == Code
    ensures !CommentStart(src, i) && src[i] != QUOTE ==> !Blanked(src, i) && AtToken(src, i + 1)
  {
  }

  /** The scanner: a buffer overwritten in place while the index jumps over comments and
      strings. */
  method CodeSkeleton(src: string) returns (skeleton: string)
    ensures skeleton == Skeleton(src)
  {
    hide ModeAt, AtToken, Blanked;
    var out := new char[|src|](k requires 0 <= k < |src| => src[k]);
    StartInCode(src);
    var i := 0;
    while i < |src|
      invariant 0 <= i <= |src| + 1 && Progress(src, out[..], if i <= |src| then i else |src|)
      invariant i < |src| ==> AtToken(src, i)
      decreases |src| + 1 - i
    {
      PlainCharacter(src, i);
      if CommentStart(src, i) {
        i := BlankComment(src, out, i);
      } else if src[i] == QUOTE {
        i := BlankString(src, out, i);
      } else {
        OneMore(src, out[..], out[..], i);
        i := i + 1;
      }
    }
    skeleton := out[..];
    assert Progress(src, skeleton, |src|);
  }

  // ------------------------------------------------------------- what it promises

  /** Same length, same newlines; no quote and no double slash is left; and only characters
      of comments and strings were touched. */
  lemma SkeletonClean(src: string)
    ensures |Skeleton(src)| == |src|
    ensures forall i :: 0 <= i < |src| ==> (Skeleton(src)[i] == NEWLINE_CHAR <==> src[i] == NEWLINE_CHAR)
    ensures forall i :: 0 <= i < |src| ==> Skeleton(src)[i] != QUOTE
    ensures forall i :: 0 <= i < |src| ==> !CommentStart(Skeleton(src), i)
  {
    var out := Skeleton(src);
    forall i | 0 <= i < |src|
      ensures out[i] == NEWLINE_CHAR <==> src[i] == NEWLINE_CHAR
      ensures out[i] != QUOTE
      ensures !CommentStart(out, i)
    {
    }
  }

  lemma {:induction false} CleanStaysCode(text: string, i: nat)
    requires i <= |text|
    requires forall k :: 0 <= k < |text| ==> text[k] != QUOTE && !CommentStart(text, k)
    ensures ModeAt(text, i) == Code
  {
    if i > 0 { CleanStaysCode(text, i - 1); }
  }

  /** A second pass changes nothing. */
  lemma SkeletonIdempotent(src: string)
    ensures Skeleton(Skeleton(src)) == Skeleton(src)
  {
    var out := Skeleton(src);
    SkeletonClean(src);
    forall i | 0 <= i < |out| ensures !Blanked(out, i) { CleanStaysCode(out, i); }
  }

  // ------------------------------------------- the skeleton, piece by piece of text

  /** Text without a quote and without two slashes in a row. */
  ghost predicate Plain(text: string) {
    forall i :: 0 <= i < |text| ==> text[i] != '"' && (i + 1 < |text| ==> !(text[i] == '/' && text[i + 1] == '/'))
  }

  /** Inside of a string: every quote, and every backslash, has a backslash of its own before it. */
  ghost predicate Inside(body: string) {
    body == "" ||
    (if body[0] == '\\' then |body| >= 2 && Inside(body[2..]) else body[0] != '"' && Inside(body[1..]))
  }

  /** As long, with nothing but spaces and the same newlines. */
  function Spaces(text: string): (s: string)
    ensures |s| == |text| && forall i :: 0 <= i < |s| ==> s[i] == if text[i] == '\n' then '\n' else ' '
  {
    seq(|text|, i requires 0 <= i < |text| => if text[i] == '\n' then '\n' else ' ')
  }

  /** After complete code or a complete string or comment the scan starts over. */
  lemma {:induction false} StartsOver(x: string, y: string, i: nat)
    requires ModeAt(x + y, |x|) == Code && i <= |y|
    ensures ModeAt(x + y, |x| + i) == ModeAt(y, i)
    decreases i
  {
    if i > 0 {
      StartsOver(x, y, i - 1);
      SameCharacter(x, y, i - 1);
    }
  }

  lemma SameCharacter(x: string, y: string, i: nat)
    requires i < |y|
    ensures (x + y)[|x| + i] == y[i] && (CommentStart(x + y, |x| + i) <==> CommentStart(y, i))
  {
    if i + 1 < |y| { assert (x + y)[|x| + i + 1] == y[i + 1]; }
  }

  lemma SkeletonAfter(x: string, y: string)
    requires ModeAt(x + y, |x|) == Code
    ensures Skeleton(x + y) == Skeleton(x + y)[..|x|] + Skeleton(y)
  {
    hide ModeAt;
    forall i | 0 <= i < |y| ensures Skeleton(x + y)[|x| + i] == Skeleton(y)[i] {
      StartsOver(x, y, i);
      SameCharacter(x, y, i);
    }
  }

  /** Plain text up to `n` is in code, if what follows does not make a comment with it. */
  lemma {:induction false} PlainModes(src: string, n: nat, i: nat)
    requires i <= n <= |src| && forall k :: 0 <= k < n ==> src[k] != QUOTE && !CommentStart(src, k)
    ensures ModeAt(src, i) == Code
    decreases i
  {
    if i > 0 { PlainModes(src, n, i - 1); }
  }

  /** How many characters the next step inside a string takes. */
  function StepInside(body: string): (n: nat)
    requires body != "" && Inside(body)
    ensures 0 < n <= |body| && Inside(body[n..])
  {
    if body[0] == '\\' then 2 else 1
  }

  lemma InsideStep(src: string, at: nat, body: string)
    requires at + |body| <= |src| && src[at..at + |body|] == body
    requires body != "" && ModeAt(src, at) == Text && Inside(body)
    ensures ModeAt(src, at + StepInside(body)) == Text
    ensures forall i :: at <= i < at + StepInside(body) ==> Skeleton(src)[i] == Spaces(body)[i - at]
  {
    assert src[at] == body[0];
    if body[0] == '\\' { assert src[at + 1] == body[1] && ModeAt(src, at + 1) == Escape; }
  }

  lemma {:induction false} InsideModes(src: string, at: nat, body: string)
    requires at + |body| <= |src| && src[at..at + |body|] == body
    requires ModeAt(src, at) == Text && Inside(body)
    ensures ModeAt(src, at + |body|) == Text
    ensures Skeleton(src)[at..at + |body|] == Spaces(body)
    decreases |body|
  {
    hide *;
    if body != "" {
      InsideStep(src, at, body);
      var n, out := StepInside(body), Skeleton(src);
      var rest, next, end := body[n..], at + n, at + |body|;
      assert src[next..next + |rest|] == rest;
      InsideModes(src, next, rest);
      assert Spaces(body)[n..] == Spaces(rest) && out[at..next] == Spaces(body)[..n];
      assert out[at..end] == out[at..next] + out[next..end];
    }
  }

  /** Nothing changes in text without quotes and double slashes. */
  lemma PlainUnchanged(text: string)
    requires Plain(text)
    ensures Skeleton(text) == text
  {
    forall i | 0 <= i < |text| ensures Skeleton(text)[i] == text[i] { PlainModes(text, |text|, i); }
  }

  /** Up to and with an opening quote. */
  lemma OpeningQuote(src: string, code: string)
    requires Plain(code) && |code| < |src| && src[..|code|] == code && src[|code|] == '"'
    ensures ModeAt(src, |code| + 1) == Text
    ensures Skeleton(src)[..|code| + 1] == code + " "
  {
    var n, out := |code|, Skeleton(src);
    forall k | 0 <= k < n ensures src[k] == code[k] && src[k] != QUOTE && !CommentStart(src, k) {
      assert src[k] == src[..n][k];
      if k + 1 < n { assert src[k + 1] == src[..n][k + 1]; }
    }
    forall i | 0 <= i <= n ensures ModeAt(src, i) == Code { PlainModes(src, n, i); }
    assert ModeAt(src, n + 1) == NextMode(src, n, Code) == Text;
    assert forall i :: 0 <= i < n ==> out[i] == code[i];
    assert out[n] == ' ';
    hide *;
    OneSpaceMore(out, code);
  }

  lemma OneSpaceMore(s: string, code: string)
    requires |code| < |s| && s[|code|] == ' ' && forall i :: 0 <= i < |code| ==> s[i] == code[i]
    ensures s[..|code| + 1] == code + " "
  {
  }

  lemma StringModes(src: string, code: string, body: string, at: nat, end: nat)
    requires Plain(code) && Inside(body) && 0 < at <= end <= |src| && at == |code| + 1 && end == at + |body|
    requires src[..at - 1] == code && src[at - 1] == '"' && src[at..end] == body
    ensures ModeAt(src, end) == Text && Skeleton(src)[..end] == code + " " + Spaces(body)
  {
    hide *;
    OpeningQuote(src, code);
    InsideModes(src, at, body);
    Halves(Skeleton(src), at, end, code + " ", Spaces(body));
  }

  lemma Halves(s: string, at: nat, end: nat, x: string, y: string)
    requires at <= end <= |s| && s[..at] == x && s[at..end] == y
    ensures s[..end] == x + y
  {
  }

  /** What one character does to the mode and to the text inside a string. */
  lemma InsideCharacter(src: string, i: nat)
    requires i < |src| && ModeAt(src, i) == Text && src[i] != '\n'
    ensures Skeleton(src)[i] == ' '
    ensures src[i] == '"' ==> ModeAt(src, i + 1) == Code
  {
  }

  /** A string becomes spaces, its quotes and its contents, but for its newlines; what comes
      before it as plain code stays, and what follows is treated on its own. */
  lemma StringBlanked(code: string, body: string, rest: string)
    requires Plain(code) && Inside(body)
    ensures Skeleton(code + "\"" + body + "\"" + rest) == code + " " + Spaces(body) + " " + Skeleton(rest)
  {
    hide *;
    var head, end := code + "\"" + body + "\"", |code| + 1 + |body|;
    var src := head + rest;
    var at := |code| + 1;
    assert src[..at - 1] == code && src[at - 1] == '"' && src[at..end] == body;
    StringModes(src, code, body, at, end);
    assert src[end] == '"';
    InsideCharacter(src, end);
    SkeletonAfter(head, rest);
    var out := Skeleton(src);
    assert |head| == end + 1 && out[..end + 1] == out[..end] + [out[end]];
  }

  /** A string that is never closed is blanked to the end, a last backslash included. */
  lemma OpenStringBlanked(code: string, body: string, backslash: bool)
    requires Plain(code) && Inside(body)
    ensures var tail := if backslash then "\\" else "";
            Skeleton(code + "\"" + body + tail) == code + " " + Spaces(body + tail)
  {
    hide *;
    var tail, end := if backslash then "\\" else "", |code| + 1 + |body|;
    var src := code + "\"" + body + tail;
    var at := |code| + 1;
    assert src[..at - 1] == code && src[at - 1] == '"' && src[at..end] == body;
    StringModes(src, code, body, at, end);
    var out := Skeleton(src);
    if backslash {
      assert src[end] == '\\';
      InsideCharacter(src, end);
      assert out == out[..end] + [out[end]];
      assert Spaces(body + tail) == Spaces(body) + " ";
    } else {
      assert out == out[..end] && body + tail == body;
    }
  }

  /** A comment becomes spaces up to its newline; what follows the newline is treated on its own. */
  lemma CommentBlanked(code: string, line: string, rest: string)
    requires Plain(code + "/") && '\n' !in line
    ensures Skeleton(code + "//" + line + "\n" + rest) == code + Spaces("//" + line) + "\n" + Skeleton(rest)
    ensures Skeleton(code + "//" + line) == code + Spaces("//" + line)
  {
    hide *;
    var head := code + "//" + line;
    var src, end := head + "\n" + rest, |head|;
    CommentUpTo(code, line, "\n" + rest);
    assert src == head + ("\n" + rest);
    assert src[end] == '\n';
    CommentEnd(src, end);
    assert src == (head + "\n") + rest;
    SkeletonAfter(head + "\n", rest);
    var out := Skeleton(src);
    assert out[..end + 1] == out[..end] + [out[end]];
    CommentUpTo(code, line, "");
    assert head + "" == head && Skeleton(head)[..|head|] == Skeleton(head);
  }

  lemma CommentEnd(src: string, i: nat)
    requires i < |src| && ModeAt(src, i) == Comment && src[i] == '\n'
    ensures Skeleton(src)[i] == '\n' && ModeAt(src, i + 1) == Code
  {
  }

  lemma CommentUpTo(code: string, line: string, rest: string)
    requires Plain(code + "/") && '\n' !in line && (rest != "" ==> rest[0] == '\n')
    ensures var src := code + "//" + line + rest;
            var end := |code| + 2 + |line|;
            ModeAt(src, end) == Comment && Skeleton(src)[..end] == code + Spaces("//" + line)
  {
    var src, end := code + "//" + line + rest, |code| + 2 + |line|;
    assert src[|code|] == '/' && src[|code| + 1] == '/';
    assert forall k :: 0 <= k <= |code| ==> src[k] == (code + "/")[k];
    forall i | 0 <= i <= |code| ensures ModeAt(src, i) == Code { PlainModes(src, |code|, i); }
    assert forall k :: |code| + 2 <= k < end ==> src[k] == line[k - |code| - 2] && src[k] in line;
    CommentModes(src, |code|, end);
    hide ModeAt;
    var spaces := Spaces("//" + line);
    forall i | |code| <= i < end ensures Skeleton(src)[i] == ' ' && spaces[i - |code|] == ' ' { }
  }

  /** How a text can begin: plain to the end, or plain up to its first string or comment. */
  datatype Shape =
    | Bare(code: string)
    | Quoted(code: string, body: string, rest: string)
    | Unclosed(code: string, body: string, backslash: bool)
    | Remark(code: string, line: string, rest: string)
    | LastRemark(code: string, line: string)

  ghost predicate Proper(shape: Shape) {
    match shape
    case Bare(code) => Plain(code)
    case Quoted(code, body, _) => Plain(code) && Inside(body)
    case Unclosed(code, body, _) => Plain(code) && Inside(body)
    case Remark(code, line, _) => Plain(code + "/") && '\n' !in line
    case LastRemark(code, line) => Plain(code + "/") && '\n' !in line
  }

  function Written(shape: Shape): string {
    match shape
    case Bare(code) => code
    case Quoted(code, body, rest) => code + "\"" + body + "\"" + rest
    case Unclosed(code, body, backslash) => code + "\"" + body + (if backslash then "\\" else "")
    case Remark(code, line, rest) => code + "//" + line + "\n" + rest
    case LastRemark(code, line) => code + "//" + line
  }

  /** What becomes of it: strings and comments blanked, plain code left alone, the rest treated
      on its own. */
  function Cleaned(shape: Shape): string {
    match shape
    case Bare(code) => code
    case Quoted(code, body, rest) => code + " " + Spaces(body) + " " + Skeleton(rest)
    case Unclosed(code, body, backslash) => code + " " + Spaces(body + if backslash then "\\" else "")
    case Remark(code, line, rest) => code + Spaces("//" + line) + "\n" + Skeleton(rest)
    case LastRemark(code, line) => code + Spaces("//" + line)
  }

  lemma ShapeCleaned(shape: Shape)
    requires Proper(shape)
    ensures Skeleton(Written(shape)) == Cleaned(shape)
  {
    match shape
    case Bare(code) => PlainUnchanged(code);
    case Quoted(code, body, rest) => StringBlanked(code, body, rest);
    case Unclosed(code, body, backslash) => OpenStringBlanked(code, body, backslash);
    case Remark(code, line, rest) => CommentBlanked(code, line, rest);
    case LastRemark(code, line) => CommentBlanked(code, line, "");
  }

  /** The first position where a string or comment begins. */
  lemma {:induction false} FirstSpecial(src: string, n: nat) returns (m: nat)
    requires n <= |src| && forall k :: 0 <= k < n ==> src[k] != '"' && !CommentStart(src, k)
    ensures n <= m <= |src| && forall k :: 0 <= k < m ==> src[k] != '"' && !CommentStart(src, k)
    ensures m < |src| ==> src[m] == '"' || CommentStart(src, m)
    decreases |src| - n
  {
    m := n;
    if n < |src| && src[n] != '"' && !CommentStart(src, n) { m := FirstSpecial(src, n + 1); }
  }

  /** The inside of a string from its beginning. */
  lemma {:induction false} InsideFrom(src: string) returns (body: string)
    ensures Inside(body) && body <= src
    ensures var n := |body|; n == |src| || src[n] == '"' || (src[n] == '\\' && n + 1 == |src|)
    decreases |src|
  {
    if src == "" || src[0] == '"' || src == "\\" {
      return "";
    }
    var n := if src[0] == '\\' then 2 else 1;
    var more := InsideFrom(src[n..]);
    body := src[..n] + more;
    assert body[n..] == more && body[0] == src[0];
  }

  lemma UpToNewline(src: string) returns (line: string)
    ensures '\n' !in line && line <= src && (|line| < |src| ==> src[|line|] == '\n')
    decreases |src|
  {
    if src == "" || src[0] == '\n' {
      return "";
    }
    var more := UpToNewline(src[1..]);
    line := src[..1] + more;
  }

  lemma PlainUpTo(src: string, m: nat)
    requires m <= |src| && forall k :: 0 <= k < m ==> src[k] != '"' && !CommentStart(src, k)
    ensures Plain(src[..m])
    ensures m < |src| && src[m] == '/' ==> Plain(src[..m] + "/")
  {
    if m < |src| && src[m] == '/' { assert src[..m] + "/" == src[..m + 1]; }
  }

  /** Every text has one of these shapes, so the laws about them fix the skeleton of every
      text, piece by piece. */
  lemma EveryShape(src: string) returns (shape: Shape)
    ensures Proper(shape) && Written(shape) == src
  {
    var m := FirstSpecial(src, 0);
    PlainUpTo(src, m);
    var code := src[..m];
    if m == |src| {
      assert code == src;
      return Bare(code);
    }
    var quote := src[m] == '"';
    var tail := src[if quote then m + 1 else m + 2..];
    assert src == code + (if quote then "\"" else "//") + tail;
    hide CommentStart, Plain, Proper, Written;
    if quote {
      shape := QuotedShape(code, tail);
    } else {
      shape := RemarkShape(code, tail);
    }
  }

  lemma RemarkShape(code: string, tail: string) returns (shape: Shape)
    requires Plain(code + "/")
    ensures Proper(shape) && Written(shape) == code + "//" + tail
  {
    var line := UpToNewline(tail);
    if line == tail {
      shape := LastRemark(code, line);
    } else {
      var rest := tail[|line| + 1..];
      assert tail == line + "\n" + rest;
      shape := Remark(code, line, rest);
    }
  }

  lemma QuotedShape(code: string, tail: string) returns (shape: Shape)
    requires Plain(code)
    ensures Proper(shape) && Written(shape) == code + "\"" + tail
  {
    var body := InsideFrom(tail);
    var n := |body|;
    if n == |tail| {
      assert body == tail;
      shape := Unclosed(code, body, false);
    } else if tail[n] == '"' {
      var rest := tail[n + 1..];
      assert tail == body + "\"" + rest;
      shape := Quoted(code, body, rest);
    } else {
      assert tail == body + "\\";
      shape := Unclosed(code, body, true);
    }
  }

  // ----------------------------------------------------------------- brace spans

  /** Opening minus closing braces in `text[lo..hi]`. */
  function Depth(text: string, lo: nat, hi: nat): int
    requires lo <= hi <= |text|
  {
    if lo == hi then 0
    else Depth(text, lo, hi - 1) + (if text[hi - 1] == '{' then 1 else if text[hi - 1] == '}' then -1 else 0)
  }

  /** `close` is the first closing brace at which the depth counted from `open` is zero. */
  ghost predicate Closes(text: string, open: nat, close: nat) {
    && open <= close < |text|
    && text[close] == '}' && Depth(text, open, close + 1) == 0
    && forall k :: open <= k < close && text[k] == '}' ==> Depth(text, open, k + 1) != 0
  }

  method BraceSpan(text: string, open: nat) returns (span: Option<(nat, nat)>)
    requires open <= |text|
    ensures span.Some? ==> span.value.0 == open + 1 && Closes(text, open, span.value.1)
    ensures span.None? ==> forall close: nat :: !Closes(text, open, close)
  {
    var depth := 0;
    for i := open to |text|
      invariant depth == Depth(text, open, i)
      invariant forall k :: open <= k < i && text[k] == '}' ==> Depth(text, open, k + 1) != 0
    {
      if text[i] == '{' {
        depth := depth + 1;
      } else if text[i] == '}' {
        depth := depth - 1;
        if depth == 0 {
          return Some((open + 1, i));
        }
      }
    }
    span := None;
  }

  /** Every proper beginning of the stretch has more opening than closing braces, and the
      whole stretch as many. */
  ghost predicate Balanced(text: string, open: nat, close: nat) {
    && open < close < |text|
    && Depth(text, open, close + 1) == 0
    && forall k :: open < k <= close ==> Depth(text, open, k) > 0
  }

  lemma {:induction false} OpenUntilClosed(text: string, open: nat, k: nat)
    requires open < k <= |text| && text[open] == '{'
    requires forall i :: open <= i < k && text[i] == '}' ==> Depth(text, open, i + 1) != 0
    ensures Depth(text, open, k) > 0
  {
    if k > open + 1 {
      OpenUntilClosed(text, open, k - 1);
    } else {
      assert Depth(text, open, open) == 0;
    }
  }

  /** From an opening brace, the span found is the balanced stretch, and there is only one. */
  lemma SpanIsBalanced(text: string, open: nat)
    requires open < |text| && text[open] == '{'
    ensures forall close: nat :: Closes(text, open, close) <==> Balanced(text, open, close)
    ensures forall x: nat, y: nat :: Balanced(text, open, x) && Balanced(text, open, y) ==> x == y
  {
    hide Depth;
    forall close: nat ensures Closes(text, open, close) <==> Balanced(text, open, close) {
      if Closes(text, open, close) {
        forall k | open < k <= close ensures Depth(text, open, k) > 0 { OpenUntilClosed(text, open, k); }
        assert open < close;
      }
      if Balanced(text, open, close) { LastIsClosing(text, open, close); }
    }
    forall x: nat, y: nat | Balanced(text, open, x) && Balanced(text, open, y) ensures x == y {
      assert !(x < y) && !(y < x);
    }
  }

  lemma LastIsClosing(text: string, open: nat, close: nat)
    requires Balanced(text, open, close)
    ensures text[close] == '}'
  {
    assert Depth(text, open, close) > 0;
  }

  /** No span is found exactly when the depth never returns to zero. */
  lemma NoSpanIffOpen(text: string, open: nat)
    requires open < |text| && text[open] == '{'
    ensures (forall close: nat :: !Closes(text, open, close)) <==>
            (forall k :: open < k <= |text| ==> Depth(text, open, k) > 0)
  {
    hide Depth;
    if close: nat :| Closes(text, open, close) {
      assert Depth(text, open, close + 1) == 0;
    } else {
      forall k | open < k <= |text| ensures Depth(text, open, k) > 0 { NeverCloses(text, open, k); }
    }
  }

  lemma {:induction false} NeverCloses(text: string, open: nat, k: nat)
    requires open < k <= |text| && text[open] == '{'
    requires forall close: nat :: !Closes(text, open, close)
    ensures Depth(text, open, k) > 0
    ensures forall i :: open <= i < k && text[i] == '}' ==> Depth(text, open, i + 1) != 0
  {
    if k > open + 1 {
      NeverCloses(text, open, k - 1);
      assert !Closes(text, open, k - 1);
    }
    OpenUntilClosed(text, open, k);
  }
}
