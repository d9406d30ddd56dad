/** The main loop of main.cc: every line of the G-code file is prepared,
    non-empty lines are written to the machine and each write is followed
    by a wait for the machine's acknowledgement. */
module SendLoop {
  import opened Wrappers
  import opened Text
  import opened Connection
  import opened Drain
  import opened Writer
  import opened Preprocess
  import opened Ack

  datatype Status = Completed | SendFailed

  /** What happened to one non-empty line: its frame was written and the
      wait for an acknowledgement ended with `acked`; or the write failed
      after `wire`, a prefix of the frame, had gone out. */
  datatype Event = Sent(frame: string, acked: bool) | WriteFailed(frame: string, wire: string)

  /** The loop's state: its two counters, what it has done so far, and what
      the machine has still to say and to take. */
  datatype Progress = Progress(
    lineCount: int,
    linesSent: int,
    log: seq<Event>,
    responses: seq<char>,
    writes: WriteResults)

  datatype Session = Session(status: Status, progress: Progress)

  function Start(responses: seq<char>, writes: WriteResults): Progress {
    Progress(0, 0, [], responses, writes)
  }

  /** One iteration of the loop: go on with the next line, or stop. */
  datatype Step = Continue(next: Progress) | Stop(session: Session)

  /** One iteration, for one input line: the line counts; an empty payload
      is skipped; a failed write ends the run at once; otherwise the wait
      for the acknowledgement follows the write, and a rejected line (after
      the operator's key press) does not stop the loop and is not sent
      again. */
  function Advance(line: string, p: Progress): Step {
    var payload := Payload(line);
    var lineCount := p.lineCount + 1;
    if payload == [] then Continue(p.(lineCount := lineCount))
    else
      var frame := Frame(payload);
      var t := WriteAll(frame, p.writes);
      if !t.ok then
        Stop(Session(SendFailed, p.(lineCount := lineCount, log := p.log + [WriteFailed(frame, t.wire)], writes := t.rest)))
      else
        var r := Await(p.responses);
        Continue(Progress(lineCount, p.linesSent + 1, p.log + [Sent(frame, r.acked)], r.rest, t.rest))
  }

  /** The loop from a given state on. */
  function RunFrom(lines: seq<string>, p: Progress): Session
    decreases |lines|
  {
    if lines == [] then Session(Completed, p)
    else
      match Advance(lines[0], p)
      case Continue(q) => RunFrom(lines[1..], q)
      case Stop(s) => s
  }

  function Run(lines: seq<string>, responses: seq<char>, writes: WriteResults): Session {
    RunFrom(lines, Start(responses, writes))
  }

  /** The loop of main.cc over the lines the file yields. */
  method SendLines(lines: seq<string>, responses: seq<char>, writes: WriteResults) returns (s: Session)
    ensures s == Run(lines, responses, writes)
  {
    var lineCount := 0;
    var linesSent := 0;
    var log: seq<Event> := [];
    var pending := responses;
    var results := writes;
    var i := 0;
    while i < |lines|
      invariant 0 <= i <= |lines|
      invariant RunFrom(lines[i..], Progress(lineCount, linesSent, log, pending, results)) == Run(lines, responses, writes)
    {
      var line := PrepareLine(lines[i]);
      lineCount := lineCount + 1;
      if line == [] {
        i := i + 1;
        continue;
      }
      line := line + ['\n'];
      var ok, wire, rest := ReliableWrite(line, results);
      results := rest;
      if !ok {
        // "Send error!"
        return Session(SendFailed, Progress(lineCount, linesSent, log + [WriteFailed(line, wire)], pending, results));
      }
      linesSent := linesSent + 1;
      var acked, after := WaitForOkAck(pending);
      pending := after;
      // when !acked, the operator's key press lets the loop go on
      log := log + [Sent(line, acked)];
      i := i + 1;
    }
    return Session(Completed, Progress(lineCount, linesSent, log, pending, results));
  }

  // -------------------------------------------------------------------
  // What the loop is meant to do, stated on its own.

  /** The frames a file's lines should produce, in order: one per line
      whose payload is not empty. */
  function Frames(lines: seq<string>): seq<string> {
    if lines == [] then []
    else
      var payload := Payload(lines[0]);
      (if payload == [] then [] else [Frame(payload)]) + Frames(lines[1..])
  }

  /** The frames of a run of events. */
  function FramesOf(events: seq<Event>): (fs: seq<string>)
    ensures |fs| == |events| && forall i :: 0 <= i < |events| ==> fs[i] == events[i].frame
  {
    seq(|events|, i requires 0 <= i < |events| => events[i].frame)
  }

  /** The number of non-empty lines among the first `n`. */
  function NonEmpty(lines: seq<string>): nat {
    |Frames(lines)|
  }

  lemma FramesSplit(lines: seq<string>)
    requires lines != []
    ensures Frames(lines) == (if Payload(lines[0]) == [] then [] else [Frame(Payload(lines[0]))]) + Frames(lines[1..])
  {
  }

  /** The event of a write that failed part-way through `frame`. */
  predicate FailedPartWay(e: Event, frame: string) {
    e.WriteFailed? && e.frame == frame && e.wire < frame
  }

  /** What one iteration does to the state when the loop goes on: an
      empty payload only counts the line; a sent line is counted, logged
      with the verdict of the one wait that follows its write, and the
      wait's leftover responses and the write's leftover results are what
      the next line sees. */
  lemma AdvanceFacts(line: string, p: Progress)
    ensures Payload(line) == [] ==> Advance(line, p) == Continue(p.(lineCount := p.lineCount + 1))
    ensures Advance(line, p).Continue? ==>
      var q := Advance(line, p).next;
      && q.lineCount == p.lineCount + 1
      && (Payload(line) == [] ==> q.linesSent == p.linesSent && q.log == p.log && q.writes == p.writes)
      && (Payload(line) != [] ==>
            && q.linesSent == p.linesSent + 1
            && |q.log| == |p.log| + 1 && q.log[..|p.log|] == p.log
            && q.log[|p.log|].Sent? && q.log[|p.log|].frame == Frame(Payload(line)))
    ensures Advance(line, p).Continue? && Payload(line) != [] ==>
      var q := Advance(line, p).next;
      var frame := Frame(Payload(line));
      && WriteAll(frame, p.writes).ok
      && q.log == p.log + [Sent(frame, Await(p.responses).acked)]
      && q.responses == Await(p.responses).rest
      && q.writes == WriteAll(frame, p.writes).rest
  {
    var payload := Payload(line);
    if payload != [] {
      var t := WriteAll(Frame(payload), p.writes);
      if t.ok {
        var r := Await(p.responses);
        var l := p.log + [Sent(Frame(payload), r.acked)];
        assert l[..|p.log|] == p.log;
      }
    }
  }

  /** What the iteration that stops the loop does: the line is counted but
      not sent, the failed write is logged, and no wait follows it. */
  lemma StopFacts(line: string, p: Progress)
    requires Advance(line, p).Stop?
    ensures var s := Advance(line, p).session;
      && s.status == SendFailed
      && Payload(line) != []
      && s.progress.lineCount == p.lineCount + 1
      && s.progress.linesSent == p.linesSent
      && |s.progress.log| == |p.log| + 1 && s.progress.log[..|p.log|] == p.log
      && FailedPartWay(s.progress.log[|p.log|], Frame(Payload(line)))
    ensures var s := Advance(line, p).session;
      var t := WriteAll(Frame(Payload(line)), p.writes);
      && !t.ok
      && s.progress.log == p.log + [WriteFailed(Frame(Payload(line)), t.wire)]
      && s.progress.responses == p.responses
      && s.progress.writes == t.rest
  {
    var payload := Payload(line);
    var t := WriteAll(Frame(payload), p.writes);
    var l := p.log + [WriteFailed(Frame(payload), t.wire)];
    assert l[..|p.log|] == p.log;
  }

  /** The loop's bookkeeping, from any state on: it only appends to what
      it has done, it counts at most one line per input line, every line
      it sends is counted, and each counted sent line is one Sent event
      (a failed write adds the one event that is not). */
  lemma {:induction false} RunFromCounters(lines: seq<string>, p: Progress)
    ensures var s := RunFrom(lines, p).progress;
      && p.log <= s.log
      && p.lineCount <= s.lineCount <= p.lineCount + |lines|
      && s.linesSent - p.linesSent <= s.lineCount - p.lineCount
      && s.linesSent - p.linesSent == |s.log| - |p.log| - (if RunFrom(lines, p).status == SendFailed then 1 else 0)
      && (RunFrom(lines, p).status == SendFailed ==> |s.log| > |p.log|)
    decreases |lines|
  {
    if lines != [] {
      if Advance(lines[0], p).Continue? {
        AdvanceFacts(lines[0], p);
        var q := Advance(lines[0], p).next;
        RunFromCounters(lines[1..], q);
        assert p.log <= q.log;
      } else {
        StopFacts(lines[0], p);
      }
    }
  }

  /** A run that completes has read every line, and sent each one whose
      payload is not empty. */
  lemma {:induction false} RunFromCompletedCounts(lines: seq<string>, p: Progress)
    requires RunFrom(lines, p).status == Completed
    ensures RunFrom(lines, p).progress.lineCount == p.lineCount + |lines|
    ensures RunFrom(lines, p).progress.linesSent == p.linesSent + NonEmpty(lines)
    decreases |lines|
  {
    if lines != [] {
      AdvanceFacts(lines[0], p);
      FramesSplit(lines);
      RunFromCompletedCounts(lines[1..], Advance(lines[0], p).next);
    }
  }

  /** A run that completes only appends Sent events to what it had done:
      every frame it wrote was followed by its own wait for an
      acknowledgement. */
  lemma {:induction false} RunFromCompletedSent(lines: seq<string>, p: Progress)
    requires RunFrom(lines, p).status == Completed
    ensures var s := RunFrom(lines, p).progress;
      && p.log <= s.log
      && (forall i :: |p.log| <= i < |s.log| ==> s.log[i].Sent?)
    decreases |lines|
  {
    if lines != [] {
      AdvanceFacts(lines[0], p);
      var q := Advance(lines[0], p).next;
      RunFromCompletedSent(lines[1..], q);
      LogExtends(p.log, q.log, RunFrom(lines, p).progress.log);
    }
  }

  /** The verdicts of `n` successive waits for an acknowledgement, each
      reading on from where the previous one stopped, and what the machine
      has still to say after the last. */
  function Waits(responses: seq<char>, n: nat): (w: (seq<bool>, seq<char>))
    ensures |w.0| == n
    ensures n > 0 ==> w.0[0] == Await(responses).acked
  {
    if n == 0 then ([], responses)
    else
      var r := Await(responses);
      var rest := Waits(r.rest, n - 1);
      ([r.acked] + rest.0, rest.1)
  }

  /** The verdicts of a run of events, a failed write counting as none. */
  function Acks(events: seq<Event>): (acks: seq<bool>)
    ensures |acks| == |events|
    ensures forall i :: 0 <= i < |events| ==> acks[i] == (events[i].Sent? && events[i].acked)
  {
    seq(|events|, i requires 0 <= i < |events| => events[i].Sent? && events[i].acked)
  }

  lemma AcksCons(e: Event, events: seq<Event>)
    ensures Acks([e] + events) == [e.Sent? && e.acked] + Acks(events)
  {
  }

  /** In a run that completes, each non-empty line is followed by exactly
      one wait, and the waits read the machine's responses in order: the
      run's verdicts are those of as many successive waits as there are
      non-empty lines, and the responses left are what those waits leave. */
  lemma {:induction false} RunFromCompletedWaits(lines: seq<string>, p: Progress)
    requires RunFrom(lines, p).status == Completed
    ensures var s := RunFrom(lines, p).progress;
      var w := Waits(p.responses, NonEmpty(lines));
      && |p.log| <= |s.log|
      && Acks(s.log[|p.log|..]) == w.0
      && s.responses == w.1
    decreases |lines|
  {
    var s := RunFrom(lines, p).progress;
    RunFromCompletedSent(lines, p);
    if lines == [] {
      assert s.log[|p.log|..] == [];
    } else {
      AdvanceFacts(lines[0], p);
      var q := Advance(lines[0], p).next;
      RunFromCompletedWaits(lines[1..], q);
      RunFromCompletedSent(lines[1..], q);
      LogExtends(p.log, q.log, s.log);
      FramesSplit(lines);
      if Payload(lines[0]) == [] {
        assert s.log[|p.log|..] == s.log[|q.log|..];
      } else {
        WaitsStep(p.responses, NonEmpty(lines[1..]));
        var e := q.log[|p.log|];
        assert s.log[|p.log|..] == [e] + s.log[|q.log|..];
        AcksCons(e, s.log[|q.log|..]);
      }
    }
  }

  lemma WaitsStep(responses: seq<char>, n: nat)
    ensures Waits(responses, n + 1) ==
            ([Await(responses).acked] + Waits(Await(responses).rest, n).0, Waits(Await(responses).rest, n).1)
  {
  }

  /** A run ended by a send error has waited once after each non-empty line
      before the failing one, and not after the failed write. */
  lemma RunFromFailedWaits(lines: seq<string>, p: Progress)
    requires RunFrom(lines, p).status == SendFailed
    ensures var n := FailurePoint(lines, p);
      var s := RunFrom(lines, p).progress;
      var w := Waits(p.responses, NonEmpty(lines[..n]));
      && n < |lines|
      && |p.log| < |s.log|
      && Acks(s.log[|p.log|..|s.log| - 1]) == w.0
      && s.responses == w.1
  {
    FailedRunSplits(lines, p);
    var n := FailurePoint(lines, p);
    var q := RunFrom(lines[..n], p).progress;
    StopFacts(lines[n], q);
    RunFromCompletedWaits(lines[..n], p);
    var s := RunFrom(lines, p).progress;
    FailedWaitsGlue(p.log, q.log, s.log);
  }

  lemma FailedWaitsGlue(before: seq<Event>, done: seq<Event>, log: seq<Event>)
    requires |before| <= |done| && |log| == |done| + 1 && log[..|done|] == done
    ensures |before| < |log| && log[|before|..|log| - 1] == done[|before|..]
  {
  }

  /** A run that completes has sent exactly the frames the lines should
      produce, each once and in order. */
  lemma {:induction false} RunFromCompletedLog(lines: seq<string>, p: Progress)
    requires RunFrom(lines, p).status == Completed
    ensures var s := RunFrom(lines, p).progress;
      && |p.log| <= |s.log|
      && FramesOf(s.log[|p.log|..]) == Frames(lines)
    decreases |lines|
  {
    var s := RunFrom(lines, p).progress;
    RunFromCompletedSent(lines, p);
    if lines == [] {
      assert s.log[|p.log|..] == [];
    } else {
      AdvanceFacts(lines[0], p);
      var q := Advance(lines[0], p).next;
      RunFromCompletedLog(lines[1..], q);
      RunFromCompletedSent(lines[1..], q);
      LogExtends(p.log, q.log, s.log);
      FramesSplit(lines);
      if Payload(lines[0]) == [] {
        assert s.log[|p.log|..] == s.log[|q.log|..];
      } else {
        var e := q.log[|p.log|];
        assert s.log[|p.log|..] == [e] + s.log[|q.log|..];
        FramesOfCons(e, s.log[|q.log|..]);
      }
    }
  }

  lemma FramesOfCons(e: Event, events: seq<Event>)
    ensures FramesOf([e] + events) == [e.frame] + FramesOf(events)
  {
  }

  /** Prefixes of prefixes. */
  lemma LogExtends(a: seq<Event>, b: seq<Event>, c: seq<Event>)
    requires |a| <= |b| && b[..|a|] == a && b <= c
    ensures a <= c
    ensures |b| == |a| + 1 ==> c[|a|..] == [b[|a|]] + c[|b|..]
  {
    if |b| == |a| + 1 {
      assert c[|a|..] == [c[|a|]] + c[|a| + 1..];
    }
  }

  /** The number of lines a run gets through before a write fails (all of
      them when none does). */
  function FailurePoint(lines: seq<string>, p: Progress): (n: nat)
    ensures n <= |lines|
    decreases |lines|
  {
    if lines == [] then 0
    else
      match Advance(lines[0], p)
      case Stop(_) => 0
      case Continue(q) => 1 + FailurePoint(lines[1..], q)
  }

  /** A run ended by a send error is a completed run over the lines before
      the failing one, followed by the iteration that fails. */
  lemma {:induction false} FailedRunSplits(lines: seq<string>, p: Progress)
    requires RunFrom(lines, p).status == SendFailed
    ensures var n := FailurePoint(lines, p);
      && n < |lines|
      && RunFrom(lines[..n], p).status == Completed
      && Advance(lines[n], RunFrom(lines[..n], p).progress).Stop?
      && RunFrom(lines, p) == Advance(lines[n], RunFrom(lines[..n], p).progress).session
    decreases |lines|
  {
    var n := FailurePoint(lines, p);
    if Advance(lines[0], p).Stop? {
      assert lines[..0] == [];
    } else {
      var q := Advance(lines[0], p).next;
      FailedRunSplits(lines[1..], q);
      assert lines[..n][1..] == lines[1..][..n - 1];
      assert lines[n] == lines[1..][n - 1];
    }
  }

  /** The same, as facts about the state before the failing line. */
  lemma FailedRunEnd(lines: seq<string>, p: Progress)
    requires RunFrom(lines, p).status == SendFailed
    ensures var n := FailurePoint(lines, p);
      var q := RunFrom(lines[..n], p).progress;
      var s := RunFrom(lines, p).progress;
      && n < |lines|
      && RunFrom(lines[..n], p).status == Completed
      && Payload(lines[n]) != []
      && s.lineCount == q.lineCount + 1
      && s.linesSent == q.linesSent
      && |s.log| == |q.log| + 1 && s.log[..|q.log|] == q.log
      && FailedPartWay(s.log[|q.log|], Frame(Payload(lines[n])))
  {
    FailedRunSplits(lines, p);
    var n := FailurePoint(lines, p);
    StopFacts(lines[n], RunFrom(lines[..n], p).progress);
  }

  lemma PrefixStep<T>(xs: seq<T>, n: nat)
    requires n < |xs|
    ensures xs[..n + 1] == xs[..n] + [xs[n]]
  {
  }

  lemma {:induction false} FramesAppend(lines: seq<string>, line: string)
    ensures Frames(lines + [line]) == Frames(lines) + Frames([line])
  {
    if lines == [] {
      assert lines + [line] == [line];
    } else {
      assert (lines + [line])[1..] == lines[1..] + [line];
      FramesAppend(lines[1..], line);
    }
  }

  /** A run that ends in a send error stops at the line whose write failed:
      that line counts but is not sent, and the lines before it were all
      sent. */
  lemma RunFromFailedCounts(lines: seq<string>, p: Progress)
    requires RunFrom(lines, p).status == SendFailed
    ensures var s := RunFrom(lines, p).progress;
      var n := s.lineCount - p.lineCount - 1;
      && 0 <= n < |lines|
      && Payload(lines[n]) != []
      && s.linesSent == p.linesSent + NonEmpty(lines[..n])
  {
    FailedRunEnd(lines, p);
    var n := FailurePoint(lines, p);
    assert |lines[..n]| == n;
    RunFromCompletedCounts(lines[..n], p);
  }

  /** What a run ended by a send error has done: after what it had done
      before, Sent events for the lines before the failing one, then the
      failed write, of which only part went out. */
  lemma RunFromFailedLog(lines: seq<string>, p: Progress)
    requires RunFrom(lines, p).status == SendFailed
    ensures var s := RunFrom(lines, p).progress;
      var n := s.lineCount - p.lineCount - 1;
      && 0 <= n < |lines|
      && p.log <= s.log
      && |s.log| > |p.log|
      && (forall i :: |p.log| <= i < |s.log| - 1 ==> s.log[i].Sent?)
      && FailedPartWay(s.log[|s.log| - 1], Frame(Payload(lines[n])))
  {
    var s := RunFrom(lines, p).progress;
    var n := FailurePoint(lines, p);
    FailedRunEnd(lines, p);
    var q := RunFrom(lines[..n], p).progress;
    assert q.lineCount == p.lineCount + n && p.log <= q.log
        && forall i :: |p.log| <= i < |q.log| ==> q.log[i].Sent? by {
      assert |lines[..n]| == n;
      RunFromCompletedCounts(lines[..n], p);
      RunFromCompletedSent(lines[..n], p);
    }
    FailedLogGlue(p.log, q.log, s.log, Frame(Payload(lines[n])));
  }

  /** Sequence facts behind the lemma above, kept apart from the run. */
  lemma FailedLogGlue(before: seq<Event>, done: seq<Event>, log: seq<Event>, frame: string)
    requires before <= done && forall i :: |before| <= i < |done| ==> done[i].Sent?
    requires |log| == |done| + 1 && log[..|done|] == done && FailedPartWay(log[|done|], frame)
    ensures before <= log && |log| > |before|
    ensures forall i :: |before| <= i < |log| - 1 ==> log[i].Sent?
    ensures FailedPartWay(log[|log| - 1], frame)
  {
    assert forall i :: 0 <= i < |done| ==> log[i] == done[i];
  }

  /** The frames of those events are the frames the lines up to the
      failing one should produce. */
  lemma RunFromFailedFrames(lines: seq<string>, p: Progress)
    requires RunFrom(lines, p).status == SendFailed
    ensures var s := RunFrom(lines, p).progress;
      var n := s.lineCount - p.lineCount - 1;
      && 0 <= n < |lines|
      && |p.log| <= |s.log|
      && FramesOf(s.log[|p.log|..]) == Frames(lines[..n + 1])
  {
    var s := RunFrom(lines, p).progress;
    var n := FailurePoint(lines, p);
    FailedRunEnd(lines, p);
    var q := RunFrom(lines[..n], p).progress;
    assert q.lineCount == p.lineCount + n && |p.log| <= |q.log|
        && FramesOf(q.log[|p.log|..]) == Frames(lines[..n]) by {
      assert |lines[..n]| == n;
      RunFromCompletedCounts(lines[..n], p);
      RunFromCompletedLog(lines[..n], p);
    }
    FramesPrefixStep(lines, n);
    FailedFramesGlue(p.log, q.log, s.log, Frames(lines[..n]), Frame(Payload(lines[n])));
  }

  /** Sequence facts behind the lemma above, kept apart from the run. */
  lemma FailedFramesGlue(before: seq<Event>, done: seq<Event>, log: seq<Event>, frames: seq<string>, frame: string)
    requires |before| <= |done| && FramesOf(done[|before|..]) == frames
    requires |log| == |done| + 1 && log[..|done|] == done && FailedPartWay(log[|done|], frame)
    ensures |before| <= |log| && FramesOf(log[|before|..]) == frames + [frame]
  {
    var last := log[|done|];
    assert log == done + [last];
    FramesOfGlue(before, done, last);
  }

  /** The frames of one more line. */
  lemma FramesPrefixStep(lines: seq<string>, n: nat)
    requires n < |lines| && Payload(lines[n]) != []
    ensures Frames(lines[..n + 1]) == Frames(lines[..n]) + [Frame(Payload(lines[n]))]
  {
    PrefixStep(lines, n);
    FramesAppend(lines[..n], lines[n]);
    FramesSplit([lines[n]]);
    assert [lines[n]][1..] == [];
  }

  lemma FramesOfGlue(before: seq<Event>, log: seq<Event>, last: Event)
    requires |before| <= |log|
    ensures FramesOf((log + [last])[|before|..]) == FramesOf(log[|before|..]) + [last.frame]
  {
    assert (log + [last])[|before|..] == log[|before|..] + [last];
    FramesOfSnoc(log[|before|..], last);
  }

  lemma FramesOfSnoc(events: seq<Event>, e: Event)
    ensures FramesOf(events + [e]) == FramesOf(events) + [e.frame]
  {
  }

  /** A machine whose writes never fail gets the whole file: rejected lines
      only pause the loop, they never end it. */
  lemma {:induction false} RunFromWithoutWriteErrors(lines: seq<string>, p: Progress)
    requires forall i :: 0 <= i < |p.writes| ==> p.writes[i] >= 0
    ensures RunFrom(lines, p).status == Completed
    decreases |lines|
  {
    if lines != [] {
      var payload := Payload(lines[0]);
      if payload == [] {
        RunFromWithoutWriteErrors(lines[1..], p.(lineCount := p.lineCount + 1));
      } else {
        var t := WriteAll(Frame(payload), p.writes);
        SucceedsWithoutFailures(Frame(payload), p.writes);
        RestIsSuffix(Frame(payload), p.writes);
        var k := |p.writes| - |t.rest|;
        assert forall i :: 0 <= i < |t.rest| ==> t.rest[i] == p.writes[k + i];
        var r := Await(p.responses);
        RunFromWithoutWriteErrors(lines[1..], Progress(p.lineCount + 1, p.linesSent + 1, p.log + [Sent(Frame(payload), r.acked)], r.rest, t.rest));
      }
    }
  }

  /** lines_sent never exceeds line_count, and line_count never exceeds
      the number of lines read. */
  lemma CountersBounded(lines: seq<string>, responses: seq<char>, writes: WriteResults)
    ensures var s := Run(lines, responses, writes).progress;
      0 <= s.linesSent <= s.lineCount <= |lines|
  {
    RunFromCounters(lines, Start(responses, writes));
  }

  /** A completed run: line_count is the number of lines read, lines_sent
      the number of non-empty ones, and the machine received their frames,
      each once and in order. */
  lemma RunCompleted(lines: seq<string>, responses: seq<char>, writes: WriteResults)
    requires Run(lines, responses, writes).status == Completed
    ensures var s := Run(lines, responses, writes).progress;
      && s.lineCount == |lines|
      && s.linesSent == NonEmpty(lines)
      && (forall i :: 0 <= i < |s.log| ==> s.log[i].Sent?)
      && FramesOf(s.log) == Frames(lines)
  {
    RunFromCompletedCounts(lines, Start(responses, writes));
    RunFromCompletedSent(lines, Start(responses, writes));
    RunFromCompletedLog(lines, Start(responses, writes));
    var s := Run(lines, responses, writes).progress;
    assert s.log[0..] == s.log;
  }

  /** The machine's answers in a run that completes: one wait after each
      non-empty line, none after an empty one, each reading on from where
      the previous wait stopped. */
  lemma RunAnswers(lines: seq<string>, responses: seq<char>, writes: WriteResults)
    requires Run(lines, responses, writes).status == Completed
    ensures var s := Run(lines, responses, writes).progress;
      var w := Waits(responses, NonEmpty(lines));
      && Acks(s.log) == w.0
      && s.responses == w.1
  {
    RunFromCompletedWaits(lines, Start(responses, writes));
    var s := Run(lines, responses, writes).progress;
    assert s.log[0..] == s.log;
  }

  lemma RunWithoutWriteErrors(lines: seq<string>, responses: seq<char>, writes: WriteResults)
    requires forall i :: 0 <= i < |writes| ==> writes[i] >= 0
    ensures Run(lines, responses, writes).status == Completed
  {
    RunFromWithoutWriteErrors(lines, Start(responses, writes));
  }

  /** A frame as the machine receives it: a non-empty command without
      comment, line end or trailing white space, then one '\n'. */
  predicate WellFramed(frame: string) {
    && |frame| >= 2
    && frame[|frame| - 1] == '\n'
    && '\n' !in frame[..|frame| - 1]
    && ';' !in frame
    && !IsSpace(frame[|frame| - 2])
  }

  /** Every frame a file yields is well framed. */
  lemma {:induction false} FramesWellFramed(lines: seq<string>)
    requires forall i :: 0 <= i < |lines| ==> '\n' !in lines[i]
    ensures forall i :: 0 <= i < |Frames(lines)| ==> WellFramed(Frames(lines)[i])
  {
    if lines != [] {
      FramesWellFramed(lines[1..]);
      var payload := Payload(lines[0]);
      if payload != [] {
        PayloadShape(lines[0]);
        var f := Frame(payload);
        assert f[..|f| - 1] == payload;
        assert forall c :: c in payload ==> c in lines[0];
        assert WellFramed(f);
      }
    }
  }

  // -------------------------------------------------------------------
  // A two-command file.

  /** A command line as a G-code file may hold it, ready to send as is. */
  predicate Clean(line: string) {
    line != [] && ';' !in line && '\n' !in line && !IsSpace(line[|line| - 1])
  }

  /** A clean line is sent as it is. */
  lemma CleanPayload(line: string)
    requires Clean(line)
    ensures Payload(line) == line
  {
    PayloadOf(line, [], []);
    assert line + [] + [] == line;
  }

  /** A file of two commands, each ended by '\n', is read as three lines,
      the last one empty. */
  lemma TwoCommandLines(first: string, second: string)
    requires Clean(first) && Clean(second)
    ensures InputLines(first + ['\n'] + second + ['\n']) == [first, second, []]
  {
    assert Joined([first, second]) == first + ['\n'] + second by {
      assert [first, second][1..] == [second];
    }
    TrailingLineEnd([first, second]);
    assert [first, second] + [[]] == [first, second, []];
  }

  /** Those lines should produce two frames. */
  lemma TwoCommandFrames(first: string, second: string)
    requires Clean(first) && Clean(second)
    ensures Frames([first, second, []]) == [Frame(first), Frame(second)]
  {
    var empty: string := [];
    assert Frames([empty]) == [] by {
      assert Payload(empty) == [];
      assert [empty][1..] == [];
    }
    assert Frames([second, empty]) == [Frame(second)] by {
      CleanPayload(second);
      assert [second, empty][1..] == [empty];
    }
    assert Frames([first, second, empty]) == [Frame(first), Frame(second)] by {
      CleanPayload(first);
      assert [first, second, empty][1..] == [second, empty];
    }
  }

  /** Two commands whose writes go through: three lines counted, two sent,
      and the machine receives exactly the two frames, whatever it answers;
      the line count is one more than the number of commands. */
  lemma TwoCommandStream(first: string, second: string, responses: seq<char>, writes: WriteResults)
    requires Clean(first) && Clean(second)
    requires forall i :: 0 <= i < |writes| ==> writes[i] >= 0
    ensures var s := Run(InputLines(first + ['\n'] + second + ['\n']), responses, writes);
      && s.status == Completed
      && s.progress.lineCount == 3
      && s.progress.linesSent == 2
      && FramesOf(s.progress.log) == [Frame(first), Frame(second)]
  {
    TwoCommandLines(first, second);
    TwoCommandFrames(first, second);
    var lines := [first, second, []];
    RunWithoutWriteErrors(lines, responses, writes);
    RunCompleted(lines, responses, writes);
  }

  /** Each of the two commands is followed by its own wait: the first wait
      reads the machine's first answer, the second goes on from there. */
  lemma TwoCommandAnswers(first: string, second: string, responses: seq<char>, writes: WriteResults)
    requires Clean(first) && Clean(second)
    requires forall i :: 0 <= i < |writes| ==> writes[i] >= 0
    ensures var s := Run([first, second, []], responses, writes);
      var r1 := Await(responses);
      var r2 := Await(r1.rest);
      && s.status == Completed
      && s.progress.log == [Sent(Frame(first), r1.acked), Sent(Frame(second), r2.acked)]
      && s.progress.responses == r2.rest
  {
    var p0 := Start(responses, writes);
    assert Run([first, second, []], responses, writes) == RunFrom([first, second, []], p0);
    TwoSentFrom(first, second, p0);
  }

  /** Two clean lines whose writes go through, then an empty line. */
  lemma TwoSentFrom(a: string, b: string, p: Progress)
    requires Clean(a) && Clean(b)
    requires forall i :: 0 <= i < |p.writes| ==> p.writes[i] >= 0
    ensures var s := RunFrom([a, b, []], p);
      var r1 := Await(p.responses);
      var r2 := Await(r1.rest);
      && s.status == Completed
      && s.progress.log == p.log + [Sent(Frame(a), r1.acked), Sent(Frame(b), r2.acked)]
      && s.progress.responses == r2.rest
  {
    var q1 := SentStep(a, p);
    var q2 := SentStep(b, q1);
    RunThree(a, b, [], p);
    var e1 := Sent(Frame(a), Await(p.responses).acked);
    var e2 := Sent(Frame(b), Await(Await(p.responses).rest).acked);
    assert q2.log == p.log + [e1] + [e2];
    AppendTwo(p.log, e1, e2);
  }

  lemma AppendTwo<T>(s: seq<T>, x: T, y: T)
    ensures s + [x] + [y] == s + [x, y]
  {
  }

  /** The first command is answered with an error and the second with "ok":
      the loop pauses after the first, goes on with the second and sends
      neither twice. */
  lemma RejectedThenAcknowledged(first: string, second: string, error: string, ok: string, tail: seq<char>, writes: WriteResults)
    requires Clean(first) && Clean(second)
    requires forall i :: 0 <= i < |writes| ==> writes[i] >= 0
    requires WellFormedLine(error) && Classify(error) == Rejected
    requires WellFormedLine(ok) && Classify(ok) == Acknowledged
    ensures var s := Run(InputLines(first + ['\n'] + second + ['\n']), error + ['\n'] + ok + ['\n'] + tail, writes);
      && s.status == Completed
      && s.progress.log == [Sent(Frame(first), false), Sent(Frame(second), true)]
      && s.progress.responses == tail
  {
    var rest := ok + ['\n'] + tail;
    var responses := error + ['\n'] + rest;
    assert error + ['\n'] + ok + ['\n'] + tail == responses;
    assert Await(responses) == Reply(false, rest) by {
      AwaitLine(error, '\n', rest);
    }
    assert Await(rest) == Reply(true, tail) by {
      AwaitLine(ok, '\n', tail);
    }
    TwoCommandLines(first, second);
    TwoCommandAnswers(first, second, responses, writes);
  }

  /** The iteration for a clean line whose write goes through. */
  function SentStep(line: string, p: Progress): (q: Progress)
    requires Clean(line) && forall i :: 0 <= i < |p.writes| ==> p.writes[i] >= 0
    ensures Advance(line, p) == Continue(q)
    ensures q == Progress(p.lineCount + 1, p.linesSent + 1, p.log + [Sent(Frame(line), Await(p.responses).acked)],
                          Await(p.responses).rest, WriteOk(Frame(line), p.writes))
    ensures forall i :: 0 <= i < |q.writes| ==> q.writes[i] >= 0
  {
    CleanPayload(line);
    var r := Await(p.responses);
    Progress(p.lineCount + 1, p.linesSent + 1, p.log + [Sent(Frame(line), r.acked)], r.rest, WriteOk(Frame(line), p.writes))
  }

  /** The loop over three lines, the last one empty. */
  lemma RunThree(a: string, b: string, c: string, p: Progress)
    requires Advance(a, p).Continue? && Advance(b, Advance(a, p).next).Continue?
    requires c == []
    ensures var q := Advance(b, Advance(a, p).next).next;
      RunFrom([a, b, c], p) == Session(Completed, q.(lineCount := q.lineCount + 1))
  {
    var q1 := Advance(a, p).next;
    var q2 := Advance(b, q1).next;
    assert Payload(c) == [];
    assert RunFrom([c], q2) == RunFrom([], q2.(lineCount := q2.lineCount + 1));
    assert RunFrom([b, c], q1) == RunFrom([c], q2) by {
      assert [b, c][1..] == [c];
    }
    assert RunFrom([a, b, c], p) == RunFrom([b, c], q1) by {
      assert [a, b, c][1..] == [b, c];
    }
  }

  /** What a successful write leaves of the write results, all of which are
      still non-negative. */
  function WriteOk(frame: string, writes: WriteResults): (rest: WriteResults)
    requires forall i :: 0 <= i < |writes| ==> writes[i] >= 0
    ensures WriteAll(frame, writes) == Transfer(true, frame, rest)
    ensures forall i :: 0 <= i < |rest| ==> rest[i] >= 0
  {
    SucceedsWithoutFailures(frame, writes);
    RestIsSuffix(frame, writes);
    var t := WriteAll(frame, writes);
    var k := |writes| - |t.rest|;
    assert forall i :: 0 <= i < |t.rest| ==> t.rest[i] == writes[k + i];
    t.rest
  }

  // -------------------------------------------------------------------
  // The program as a whole.

  const ExitSuccess: int := 0
  const ExitFailure: int := 1

  datatype Outcome = Outcome(exit: int, session: Option<Session>)

  /** The descriptor main() connects with: the second argument, or the
      default device. */
  function DescriptorOf(args: seq<string>): string {
    if |args| >= 3 then args[2] else DefaultDescriptor
  }

  /** main(): `args` is argv, `text` the G-code file; without a file
      argument it prints its usage; a connection that cannot be opened is
      a failure; otherwise the exit status is that of the send loop. */
  function Streamed(args: seq<string>, text: string, env: Env, responses: seq<char>, writes: WriteResults): Outcome {
    if |args| < 2 then Outcome(ExitFailure, None)
    else if OpenMachineConnection(env, Some(DescriptorOf(args))).None? then Outcome(ExitFailure, None)
    else
      var s := Run(InputLines(text), responses, writes);
      Outcome(if s.status == Completed then ExitSuccess else ExitFailure, Some(s))
  }

  /** main(): connect, throw away what the machine sent before, stream the
      file. */
  method Stream(args: seq<string>, text: string, env: Env, wakes: seq<Wake>, responses: seq<char>, writes: WriteResults)
    returns (exit: int, session: Option<Session>)
    ensures Outcome(exit, session) == Streamed(args, text, env, responses, writes)
  {
    if |args| < 2 {
      return ExitFailure, None;  // usage()
    }
    var connectStr := DescriptorOf(args);
    var machine := OpenMachineConnection(env, Some(connectStr));
    if machine.None? {
      return ExitFailure, None;  // "Failed to connect to machine"
    }
    // The channel is open, so its descriptor is some non-negative number;
    // any such descriptor drains the same Discarded(wakes) bytes.
    var fd := 0;
    var discarded := DiscardPendingInput(fd, wakes);
    assert discarded == Discarded(wakes);
    var s := SendLines(InputLines(text), responses, writes);
    exit := if s.status == Completed then ExitSuccess else ExitFailure;
    session := Some(s);
  }

  /** The program exits successfully exactly when it could connect and
      every write succeeded; then it has counted one line per line end of
      the file, plus one, and sent every non-empty one. */
  lemma StreamedSucceeds(args: seq<string>, text: string, env: Env, responses: seq<char>, writes: WriteResults)
    ensures var o := Streamed(args, text, env, responses, writes);
      o.exit == ExitSuccess <==>
        |args| >= 2 && OpenMachineConnection(env, Some(DescriptorOf(args))).Some?
        && Run(InputLines(text), responses, writes).status == Completed
    ensures var o := Streamed(args, text, env, responses, writes);
      o.exit == ExitSuccess ==>
        o.session.Some?
        && o.session.value.progress.lineCount == Occurrences(text, '\n') + 1
        && o.session.value.progress.linesSent == NonEmpty(InputLines(text))
        && FramesOf(o.session.value.progress.log) == Frames(InputLines(text))
  {
    var o := Streamed(args, text, env, responses, writes);
    if o.exit == ExitSuccess {
      InputLineCount(text);
      RunCompleted(InputLines(text), responses, writes);
    }
  }

  /** Without a G-code file argument nothing is opened. */
  lemma UsageFails(args: seq<string>, text: string, env: Env, responses: seq<char>, writes: WriteResults)
    requires |args| < 2
    ensures Streamed(args, text, env, responses, writes) == Outcome(ExitFailure, None)
  {
  }

  /** Every frame written to the machine is well framed. */
  lemma StreamedFramesWellFramed(text: string)
    ensures forall i :: 0 <= i < |Frames(InputLines(text))| ==> WellFramed(Frames(InputLines(text))[i])
  {
    FramesWellFramed(InputLines(text));
  }
}
