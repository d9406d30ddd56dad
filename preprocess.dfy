/** The per-line preparation in main.cc: the G-code file is read line by
    line, a comment from the first ';' on is cut, trailing white space is
    trimmed, empty lines are skipped and each remaining line is framed with
    a single '\n'. */
module Preprocess {
  import opened Text

  /** The line up to its first ';' (std::string::find_first_of and
      resize). */
  function Uncommented(line: string): (r: string)
    ensures r <= line
    ensures ';' !in r
    ensures |r| < |line| ==> line[|r|] == ';'
  {
    line[..IndexOf(line, ';')]
  }

  /** The line without its trailing isspace() characters. */
  function TrimRight(s: string): (r: string)
    ensures r <= s
    ensures forall i :: |r| <= i < |s| ==> IsSpace(s[i])
    ensures r == [] || !IsSpace(r[|r| - 1])
  {
    if s == [] || !IsSpace(s[|s| - 1]) then s
    else
      var r := TrimRight(s[..|s| - 1]);
      assert forall i :: |r| <= i < |s| - 1 ==> s[..|s| - 1][i] == s[i];
      r
  }

  /** What is left of an input line once its comment and trailing white
      space are gone. */
  function Payload(line: string): string {
    TrimRight(Uncommented(line))
  }

  /** The preparation of main.cc: cut at the first ';', then drop trailing
      white space one character at a time. */
  method PrepareLine(input: string) returns (line: string)
    ensures line == Payload(input)
  {
    line := input;
    var commentStart := IndexOf(line, ';');
    if commentStart != |line| {
      line := line[..commentStart];
    }
    assert line == Uncommented(input);
    while line != [] && IsSpace(line[|line| - 1])
      invariant TrimRight(line) == Payload(input)
      decreases |line|
    {
      line := line[..|line| - 1];
    }
  }

  /** The bytes handed to reliable_write for a non-empty payload: GRBL
      wants a bare newline, not CR LF. */
  function Frame(payload: string): (f: string)
    ensures |f| == |payload| + 1 && f[..|payload|] == payload && f[|payload|] == '\n'
  {
    payload + ['\n']
  }

  /** The payload is a prefix of the line with no ';' in it, it does not end
      in white space, and beyond it the line holds only white space up to
      its end or up to its first ';'. */
  lemma PayloadShape(line: string)
    ensures var p := Payload(line);
      && p <= line
      && ';' !in p
      && (p == [] || !IsSpace(p[|p| - 1]))
      && (forall i :: |p| <= i < |Uncommented(line)| ==> IsSpace(line[i]))
      && (|Uncommented(line)| < |line| ==> line[|Uncommented(line)|] == ';')
  {
    var u := Uncommented(line);
    var p := TrimRight(u);
    assert forall i :: |p| <= i < |u| ==> u[i] == line[i];
    assert forall c :: c in p ==> c in u;
  }

  /** Conversely, any line of that shape has that payload: the text before
      the padding and the comment. */
  lemma {:induction false} PayloadOf(code: string, padding: string, comment: string)
    requires ';' !in code && ';' !in padding
    requires code == [] || !IsSpace(code[|code| - 1])
    requires forall i :: 0 <= i < |padding| ==> IsSpace(padding[i])
    requires comment == [] || comment[0] == ';'
    ensures Payload(code + padding + comment) == code
  {
    var line := code + padding + comment;
    assert Uncommented(line) == code + padding by {
      if comment == [] {
        assert line == code + padding;
        IndexOfAbsent(code + padding, ';');
      } else {
        assert line == (code + padding) + [';'] + comment[1..];
        IndexOfSplit(code + padding, ';', comment[1..]);
        assert line[..|code + padding|] == code + padding;
      }
    }
    TrimPadding(code, padding);
  }

  lemma {:induction false} TrimPadding(code: string, padding: string)
    requires code == [] || !IsSpace(code[|code| - 1])
    requires forall i :: 0 <= i < |padding| ==> IsSpace(padding[i])
    ensures TrimRight(code + padding) == code
    decreases |padding|
  {
    if padding == [] {
      assert code + padding == code;
    } else {
      var s := code + padding;
      assert s[..|s| - 1] == code + padding[..|padding| - 1];
      TrimPadding(code, padding[..|padding| - 1]);
    }
  }

  /** Preparing a prepared line changes nothing. */
  lemma PayloadIdempotent(line: string)
    ensures Payload(Payload(line)) == Payload(line)
  {
    var p := Payload(line);
    PayloadShape(line);
    PayloadOf(p, [], []);
    assert p + [] + [] == p;
  }

  /** A line of a file with DOS line ends keeps its '\r' after getline; it
      is trimmed like any other trailing white space. */
  lemma CarriageReturnTrimmed(line: string)
    ensures Payload(line + ['\r']) == Payload(line)
  {
    if ';' in line {
      UncommentedAppend(line, ['\r']);
    } else {
      IndexOfAbsent(line, ';');
      IndexOfAbsent(line + ['\r'], ';');
      assert (line + ['\r'])[..|line|] == line;
    }
  }

  /** Text after the comment does not change what is cut. */
  lemma UncommentedAppend(line: string, more: string)
    requires ';' in line
    ensures Uncommented(line + more) == Uncommented(line)
  {
    IndexOfAppend(line, more, ';');
    var k := IndexOf(line, ';');
    assert (line + more)[..k] == line[..k];
  }

  /** "G1 X10 ; move to start" is sent as "G1 X10". */
  lemma CommentedMove(code: string, padding: string, comment: string)
    requires code == "G1 X10" && padding == " " && comment == "; move to start"
    ensures Payload(code + padding + comment) == code
  {
    PayloadOf(code, padding, comment);
  }

  // -------------------------------------------------------------------
  // The input file, as `while (!input.eof()) getline(input, line)` reads it.

  /** The lines the loop of main.cc reads from a file of the given text:
      getline splits at each '\n'; the loop stops only once a getline has
      hit the end of the file, so a file ending in '\n' yields one more,
      empty, line, and an empty file yields one empty line. */
  function InputLines(text: string): (lines: seq<string>)
    ensures |lines| >= 1
    ensures forall i :: 0 <= i < |lines| ==> '\n' !in lines[i]
    decreases |text|
  {
    var k := IndexOf(text, '\n');
    if k == |text| then [text] else [text[..k]] + InputLines(text[k + 1..])
  }

  /** Lines joined with '\n' between them: the file they came from. */
  function Joined(lines: seq<string>): string
    requires |lines| >= 1
  {
    if |lines| == 1 then lines[0] else lines[0] + ['\n'] + Joined(lines[1..])
  }

  /** The loop makes one iteration more than the file has line ends. */
  lemma {:induction false} InputLineCount(text: string)
    ensures |InputLines(text)| == Occurrences(text, '\n') + 1
    decreases |text|
  {
    var k := IndexOf(text, '\n');
    if k == |text| {
      OccurrencesAbsent(text, '\n');
    } else {
      assert text == text[..k] + ([text[k]] + text[k + 1..]);
      OccurrencesConcat(text[..k], [text[k]] + text[k + 1..], '\n');
      OccurrencesAbsent(text[..k], '\n');
      assert ([text[k]] + text[k + 1..])[1..] == text[k + 1..];
      InputLineCount(text[k + 1..]);
    }
  }

  /** The lines read are the whole file, in order. */
  lemma {:induction false} JoinedInputLines(text: string)
    ensures Joined(InputLines(text)) == text
    decreases |text|
  {
    var k := IndexOf(text, '\n');
    if k < |text| {
      JoinedInputLines(text[k + 1..]);
      assert InputLines(text)[1..] == InputLines(text[k + 1..]);
      assert text == text[..k] + ['\n'] + text[k + 1..];
    }
  }

  /** And any file is read back as the lines it was written from. */
  lemma {:induction false} InputLinesOfJoined(lines: seq<string>)
    requires |lines| >= 1
    requires forall i :: 0 <= i < |lines| ==> '\n' !in lines[i]
    ensures InputLines(Joined(lines)) == lines
  {
    if |lines| == 1 {
      IndexOfAbsent(lines[0], '\n');
    } else {
      var rest := Joined(lines[1..]);
      IndexOfSplit(lines[0], '\n', rest);
      var text := lines[0] + ['\n'] + rest;
      assert text[..|lines[0]|] == lines[0];
      assert text[|lines[0]| + 1..] == rest;
      InputLinesOfJoined(lines[1..]);
      assert [lines[0]] + lines[1..] == lines;
    }
  }

  /** A file whose last byte is '\n' makes the loop read a final empty
      line. */
  lemma TrailingLineEnd(lines: seq<string>)
    requires |lines| >= 1
    requires forall i :: 0 <= i < |lines| ==> '\n' !in lines[i]
    ensures InputLines(Joined(lines) + ['\n']) == lines + [[]]
  {
    JoinedAppend(lines, []);
    var all := lines + [[]];
    assert Joined(all) == Joined(lines) + ['\n'];
    NoLineEndsAppend(lines, []);
    InputLinesOfJoined(all);
  }

  lemma NoLineEndsAppend(lines: seq<string>, last: string)
    requires forall i :: 0 <= i < |lines| ==> '\n' !in lines[i]
    requires '\n' !in last
    ensures forall i :: 0 <= i < |lines + [last]| ==> '\n' !in (lines + [last])[i]
  {
  }

  lemma {:induction false} JoinedAppend(lines: seq<string>, last: string)
    requires |lines| >= 1
    ensures Joined(lines + [last]) == Joined(lines) + ['\n'] + last
  {
    if |lines| == 1 {
      assert (lines + [last])[1..] == [last];
    } else {
      assert (lines + [last])[1..] == lines[1..] + [last];
      JoinedAppend(lines[1..], last);
    }
  }

  // -------------------------------------------------------------------
  // The progress display.

  /** Division as C++ does it, rounding toward zero. */
  function TruncatedDiv(a: int, b: int): int
    requires b > 0
  {
    if a >= 0 then a / b else -((-a) / b)
  }

  /** input_length: one hundredth of what tellg reports at the end of the
      file (-1 when the file could not be opened), plus one. */
  function ProgressDivisor(size: int): (d: int)
    requires size >= -1
    ensures d >= 1
  {
    TruncatedDiv(size, 100) + 1
  }

  /** Every offset within the file shows as a percentage from 0 to 99. */
  lemma PercentInRange(offset: int, size: int)
    requires 0 <= offset <= size
    ensures 0 <= TruncatedDiv(offset, ProgressDivisor(size)) <= 99
  {
    var d := ProgressDivisor(size);
    assert d == size / 100 + 1;
    assert size < 100 * d;
    var p := offset / d;
    assert p * d <= offset;
    if p >= 100 {
      MulMonotone(100, p, d);
    }
  }

  lemma MulMonotone(a: int, b: int, d: int)
    requires 0 <= a <= b && d > 0
    ensures a * d <= b * d
  {
  }
}
