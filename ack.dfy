/** WaitForOkAck of machine-connection.cc: after each command, response
    lines are read until one acknowledges it ("ok") or reports an error;
    every other line is informational chatter and is skipped. */
module Ack {
  import opened Wrappers
  import opened Text
  import opened LineReader

  /** Size of WaitForOkAck's response buffer: lines keep at most 511 bytes. */
  const ResponseBufferSize: int := 512
  const MaxResponse: nat := 511

  datatype Verdict = Acknowledged | Rejected | Chatter

  /** strncasecmp(line, prefix, |prefix|) == 0 for a line of at least
      |prefix| bytes. */
  predicate StartsWithIgnoringCase(line: string, prefix: string) {
    |line| >= |prefix| &&
    forall i :: 0 <= i < |prefix| ==> ToLower(line[i]) == ToLower(prefix[i])
  }

  /** The tests of machine-connection.cc:208-220, in their order: "ok"
      acknowledges; "rs", "!!", "error", "fatal" and "resend" report an
      error; anything else is chatter. */
  function Classify(line: string): Verdict {
    if |line| >= 2 && StartsWithIgnoringCase(line, "ok") then Acknowledged
    else if (|line| >= 2 && StartsWithIgnoringCase(line, "rs"))
         || (|line| >= 2 && StartsWithIgnoringCase(line, "!!"))
         || (|line| >= 5 && StartsWithIgnoringCase(line, "error"))
         || (|line| >= 5 && StartsWithIgnoringCase(line, "fatal"))
         || (|line| >= 6 && StartsWithIgnoringCase(line, "resend"))
    then Rejected
    else Chatter
  }

  /** The outcome of waiting for an acknowledgement, and what the machine
      has still to deliver afterwards. */
  datatype Reply = Reply(acked: bool, rest: seq<char>)

  /** What WaitForOkAck does with the bytes the machine sends: read lines
      (ReadLine with the 512-byte buffer) until one is decisive; a failed
      read is a failure. */
  function Await(input: seq<char>): (r: Reply)
    ensures |r.rest| <= |input| && r.rest == input[|input| - |r.rest|..]
    decreases |input|
  {
    var k := PayloadLength(input, MaxResponse);
    if k >= |input| then Reply(false, [])
    else
      match Classify(input[..k])
      case Acknowledged => Reply(true, input[k + 1..])
      case Rejected => Reply(false, input[k + 1..])
      case Chatter => Await(input[k + 1..])
  }

  /** WaitForOkAck: true on an acknowledgement, false on an error line or a
      failed read. */
  method WaitForOkAck(input: seq<char>) returns (acked: bool, rest: seq<char>)
    ensures Reply(acked, rest) == Await(input)
  {
    var buffer := new char[ResponseBufferSize](_ => '\0');
    rest := input;
    while true
      invariant Await(rest) == Await(input)
      decreases |rest|
    {
      var gotChars, after := ReadLine(rest, buffer, ResponseBufferSize);
      if gotChars < 0 {
        return false, after;  // "--> RESPONSE ERROR <--"
      }
      assert buffer[..gotChars] == rest[..gotChars];
      var verdict := Classify(buffer[..gotChars]);
      if verdict == Acknowledged {
        return true, after;
      }
      if verdict == Rejected {
        return false, after;  // the offending line goes to stderr
      }
      rest := after;
    }
  }

  /** Lower-casing every byte. */
  function Lowered(line: string): (r: string)
    ensures |r| == |line|
    ensures forall i :: 0 <= i < |line| ==> r[i] == ToLower(line[i])
  {
    seq(|line|, i requires 0 <= i < |line| => ToLower(line[i]))
  }

  /** The classification does not depend on letter case. */
  lemma ClassifyIgnoresCase(line: string)
    ensures Classify(Lowered(line)) == Classify(line)
  {
    var low := Lowered(line);
    forall prefix: string | true
      ensures StartsWithIgnoringCase(low, prefix) == StartsWithIgnoringCase(line, prefix)
    {
      if |line| >= |prefix| {
        assert forall i :: 0 <= i < |prefix| ==> ToLower(low[i]) == ToLower(line[i]);
      }
    }
  }

  /** The responses the streamer is documented to meet: "ok" in any case
      acknowledges, also with text after it; a resend request or a "!!"
      fault is an error; a temperature report is chatter. */
  lemma OkAcknowledged(line: string)
    requires line == "ok" || line == "OK done"
    ensures Classify(line) == Acknowledged
  {
    assert ToLower(line[0]) == 'o' && ToLower(line[1]) == 'k';
  }

  lemma FaultRejected(line: string)
    requires line == "!!fatal"
    ensures Classify(line) == Rejected
  {
    assert ToLower(line[0]) == '!' && ToLower(line[1]) == '!';
  }

  lemma ResendRejected(line: string)
    requires line == "Resend: 42"
    ensures Classify(line) == Rejected
  {
    assert !StartsWithIgnoringCase(line, "ok") by { assert ToLower(line[0]) != ToLower('o'); }
    assert StartsWithIgnoringCase(line, "resend") by {
      assert ToLower(line[0]) == 'r' && ToLower(line[1]) == 'e' && ToLower(line[2]) == 's';
      assert ToLower(line[3]) == 'e' && ToLower(line[4]) == 'n' && ToLower(line[5]) == 'd';
    }
  }

  lemma TemperatureIsChatter(line: string)
    requires line == "T:200 /200" || line == "T:190 /200"
    ensures Classify(line) == Chatter
  {
    assert ToLower(line[0]) == 't';
    assert !StartsWithIgnoringCase(line, "ok") && !StartsWithIgnoringCase(line, "rs");
    assert !StartsWithIgnoringCase(line, "!!") && !StartsWithIgnoringCase(line, "error");
    assert !StartsWithIgnoringCase(line, "fatal") && !StartsWithIgnoringCase(line, "resend");
  }

  // -------------------------------------------------------------------
  // The same behaviour, stated over whole response lines.

  /** A response line as the machine sends it: no line end inside, and
      short enough to fit the buffer. */
  predicate WellFormedLine(line: string) {
    |line| <= MaxResponse && '\n' !in line && '\r' !in line
  }

  /** The line ends a machine may send: '\n', '\r', or CR LF as GRBL does. */
  predicate IsTerminator(end: string) {
    end == "\n" || end == "\r" || end == "\r\n"
  }

  /** Lines, each followed by its own line end. */
  function Framed(lines: seq<string>, ends: seq<string>): string
    requires |ends| == |lines|
  {
    if lines == [] then [] else lines[0] + ends[0] + Framed(lines[1..], ends[1..])
  }

  /** One well-formed line ended by '\n' or '\r': chatter is skipped,
      anything else decides, and nothing past the line end is read. */
  lemma AwaitLine(line: string, end: char, tail: seq<char>)
    requires WellFormedLine(line) && IsLineEnd(end)
    ensures Classify(line) == Chatter ==> Await(line + [end] + tail) == Await(tail)
    ensures Classify(line) != Chatter ==>
              Await(line + [end] + tail) == Reply(Classify(line) == Acknowledged, tail)
  {
    var input := line + [end] + tail;
    PayloadOfLine(line, end, tail, MaxResponse);
    assert input[..|line|] == line;
    assert input[|line| + 1..] == tail;
  }

  /** The '\n' left over after a line ended by '\r' reads as an empty
      line, which is chatter: the next wait skips it. */
  lemma LeftoverLineEnd(tail: seq<char>)
    ensures Await(['\n'] + tail) == Await(tail)
  {
    AwaitLine([], '\n', tail);
  }

  /** A CR LF response: the '\r' ends the line, so a decisive line settles
      the wait with the '\n' still unread, and a chatter line is skipped
      together with its '\n'. */
  lemma AwaitCrLf(line: string, tail: seq<char>)
    requires WellFormedLine(line)
    ensures Classify(line) == Chatter ==> Await(line + "\r\n" + tail) == Await(tail)
    ensures Classify(line) != Chatter ==>
              Await(line + "\r\n" + tail) == Reply(Classify(line) == Acknowledged, ['\n'] + tail)
  {
    SplitPair(line, '\r', '\n', tail);
    AwaitLine(line, '\r', ['\n'] + tail);
    LeftoverLineEnd(tail);
  }

  lemma SplitPair<T>(a: seq<T>, x: T, y: T, t: seq<T>)
    ensures a + [x, y] + t == a + [x] + ([y] + t)
  {
  }

  /** A chatter line is skipped whichever line end follows it. */
  lemma AwaitChatterLine(line: string, end: string, tail: seq<char>)
    requires WellFormedLine(line) && Classify(line) == Chatter && IsTerminator(end)
    ensures Await(line + end + tail) == Await(tail)
  {
    if end == "\r\n" {
      AwaitCrLf(line, tail);
    } else {
      assert end == [end[0]];
      AwaitLine(line, end[0], tail);
    }
  }

  /** A decisive line settles the wait whichever line end follows it; only
      the '\n' of a CR LF is left unread. */
  lemma AwaitDecisiveLine(line: string, end: string, tail: seq<char>)
    requires WellFormedLine(line) && Classify(line) != Chatter && IsTerminator(end)
    ensures Await(line + end + tail) == Reply(Classify(line) == Acknowledged, end[1..] + tail)
  {
    if end == "\r\n" {
      AwaitCrLf(line, tail);
      assert end[1..] == ['\n'];
    } else {
      assert end == [end[0]];
      AwaitLine(line, end[0], tail);
      assert end[1..] + tail == tail;
    }
  }

  /** What a wait leaves unread after a line end is read by the next wait
      as if only the following lines were there. */
  lemma LeftoverIgnored(end: string, tail: seq<char>)
    requires IsTerminator(end)
    ensures Await(end[1..] + tail) == Await(tail)
  {
    if end == "\r\n" {
      assert end[1..] == ['\n'];
      LeftoverLineEnd(tail);
    } else {
      assert end[1..] + tail == tail;
    }
  }

  /** When every line is chatter, the wait goes on past all of them,
      whatever their line ends. */
  lemma {:induction false} AwaitChatter(lines: seq<string>, ends: seq<string>, tail: seq<char>)
    requires |ends| == |lines|
    requires forall i :: 0 <= i < |lines| ==>
               WellFormedLine(lines[i]) && Classify(lines[i]) == Chatter && IsTerminator(ends[i])
    ensures Await(Framed(lines, ends) + tail) == Await(tail)
  {
    if lines == [] {
      assert Framed(lines, ends) + tail == tail;
    } else {
      var rest := Framed(lines[1..], ends[1..]) + tail;
      assert Framed(lines, ends) + tail == lines[0] + ends[0] + rest;
      AwaitChatterLine(lines[0], ends[0], rest);
      AwaitChatter(lines[1..], ends[1..], tail);
    }
  }

  /** Over a run of response lines: chatter lines are skipped, the first
      decisive line settles the wait, and what follows it is left for the
      next command, which reads it as if the wait had consumed exactly
      those lines. */
  lemma AwaitFirstDecisive(chatter: seq<string>, ends: seq<string>, line: string, end: string, tail: seq<char>)
    requires |ends| == |chatter|
    requires forall i :: 0 <= i < |chatter| ==>
               WellFormedLine(chatter[i]) && Classify(chatter[i]) == Chatter && IsTerminator(ends[i])
    requires WellFormedLine(line) && Classify(line) != Chatter && IsTerminator(end)
    ensures var r := Await(Framed(chatter + [line], ends + [end]) + tail);
      && r == Reply(Classify(line) == Acknowledged, end[1..] + tail)
      && Await(r.rest) == Await(tail)
  {
    FramedAppend(chatter, ends, line, end);
    Regroup(Framed(chatter, ends), line, end, tail);
    AwaitChatter(chatter, ends, line + end + tail);
    AwaitDecisiveLine(line, end, tail);
    LeftoverIgnored(end, tail);
  }

  lemma Regroup<T>(a: seq<T>, b: seq<T>, c: seq<T>, d: seq<T>)
    ensures a + b + c + d == a + (b + c + d)
  {
  }

  lemma {:induction false} FramedAppend(lines: seq<string>, ends: seq<string>, line: string, end: string)
    requires |ends| == |lines|
    ensures Framed(lines + [line], ends + [end]) == Framed(lines, ends) + line + end
  {
    if lines == [] {
      assert [] + [line] == [line] && [] + [end] == [end];
    } else {
      assert (lines + [line])[1..] == lines[1..] + [line];
      assert (ends + [end])[1..] == ends[1..] + [end];
      FramedAppend(lines[1..], ends[1..], line, end);
    }
  }

  lemma FramedCons(line: string, end: string, lines: seq<string>, ends: seq<string>)
    requires |ends| == |lines|
    ensures Framed([line] + lines, [end] + ends) == line + end + Framed(lines, ends)
  {
    assert ([line] + lines)[1..] == lines;
    assert ([end] + ends)[1..] == ends;
  }

  /** When the machine falls silent before a decisive line, ReadLine fails
      and the wait reports a failure. */
  lemma AwaitSilence(tail: seq<char>)
    requires WellFormedLine(tail)
    ensures Await(tail) == Reply(false, [])
  {
  }

  /** Two chatter lines, then an acknowledgement, with any line ends. */
  lemma AwaitAfterTwoChatter(first: string, second: string, ok: string, ends: seq<string>, tail: seq<char>)
    requires WellFormedLine(first) && Classify(first) == Chatter
    requires WellFormedLine(second) && Classify(second) == Chatter
    requires WellFormedLine(ok) && Classify(ok) == Acknowledged
    requires |ends| == 3 && IsTerminator(ends[0]) && IsTerminator(ends[1]) && IsTerminator(ends[2])
    ensures Await(Framed([first, second, ok], ends) + tail) == Reply(true, ends[2][1..] + tail)
  {
    assert [first, second] + [ok] == [first, second, ok];
    assert ends[..2] + [ends[2]] == ends;
    AwaitFirstDecisive([first, second], ends[..2], ok, ends[2], tail);
  }

  /** "echo: busy", then "T:190 /200", then "ok": acknowledged after three
      lines. With '\n' or '\r' ends nothing past the "ok" line is read;
      with CR LF ends its '\n' is left. */
  lemma ChatterThenOk(echo: string, temperature: string, ok: string, ends: seq<string>, tail: seq<char>)
    requires echo == "echo: busy" && temperature == "T:190 /200" && ok == "ok"
    requires |ends| == 3 && IsTerminator(ends[0]) && IsTerminator(ends[1]) && IsTerminator(ends[2])
    ensures Await(Framed([echo, temperature, ok], ends) + tail) == Reply(true, ends[2][1..] + tail)
  {
    assert WellFormedLine(echo) && WellFormedLine(temperature) && WellFormedLine(ok) by {
      SampleLinesWellFormed(echo, temperature, ok);
    }
    assert Classify(echo) == Chatter && Classify(temperature) == Chatter by {
      EchoIsChatter(echo);
      TemperatureIsChatter(temperature);
    }
    assert Classify(ok) == Acknowledged by {
      OkAcknowledged(ok);
    }
    AwaitAfterTwoChatter(echo, temperature, ok, ends, tail);
  }

  lemma SampleLinesWellFormed(echo: string, temperature: string, ok: string)
    requires echo == "echo: busy" && temperature == "T:190 /200" && ok == "ok"
    ensures WellFormedLine(echo) && WellFormedLine(temperature) && WellFormedLine(ok)
  {
  }

  lemma EchoIsChatter(line: string)
    requires line == "echo: busy"
    ensures Classify(line) == Chatter
  {
    assert ToLower(line[0]) == 'e' && ToLower(line[1]) == 'c';
    assert !StartsWithIgnoringCase(line, "error") && !StartsWithIgnoringCase(line, "ok");
    assert !StartsWithIgnoringCase(line, "rs") && !StartsWithIgnoringCase(line, "!!");
    assert !StartsWithIgnoringCase(line, "fatal") && !StartsWithIgnoringCase(line, "resend");
  }
}
