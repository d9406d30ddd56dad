/** reliable_write of main.cc: a frame is handed to write() again and again,
    each call resuming where the previous one stopped, until every byte is
    out or a call fails. */
module Writer {

  /** What the machine's write() calls return, one entry per call: a
      negative value is a failure, otherwise the number of bytes taken
      (a kernel never takes more than it was offered; the model caps an
      entry at the bytes still pending).  Once the entries run out, the
      connection takes everything still pending in one call. */
  type WriteResults = seq<int>

  /** The bytes a call with `pending` bytes still to go takes. */
  function Taken(w: int, pending: nat): (n: nat)
    requires w >= 0
    ensures n <= pending
    ensures n == w || (n == pending && w > pending)
  {
    if w <= pending then w else pending
  }

  /** What a run of reliable_write leaves behind: whether it reported
      success, the bytes that reached the connection, and the write
      results not yet used. */
  datatype Transfer = Transfer(ok: bool, wire: seq<char>, rest: WriteResults)

  /** reliable_write as a function of the buffer and the write results. */
  function WriteAll(buffer: seq<char>, results: WriteResults): (t: Transfer)
    ensures t.wire <= buffer
    ensures t.ok <==> t.wire == buffer
    ensures |t.rest| < |results| || t.rest == results
    decreases |results|
  {
    if buffer == [] then Transfer(true, [], results)
    else if results == [] then Transfer(true, buffer, [])
    else if results[0] < 0 then Transfer(false, [], results[1..])
    else
      var n := Taken(results[0], |buffer|);
      var t := WriteAll(buffer[n..], results[1..]);
      Transfer(t.ok, buffer[..n] + t.wire, t.rest)
  }

  /** The outcome of a run that has already written `buffer[..off]` and
      goes on with the results `rest`. */
  function Resumed(buffer: seq<char>, off: nat, rest: WriteResults): Transfer
    requires off <= |buffer|
  {
    var t := WriteAll(buffer[off..], rest);
    Transfer(t.ok, buffer[..off] + t.wire, t.rest)
  }

  /** One successful call moves the resume point forward. */
  lemma ResumedStep(buffer: seq<char>, off: nat, rest: WriteResults)
    requires off < |buffer| && rest != [] && rest[0] >= 0
    ensures off + Taken(rest[0], |buffer| - off) <= |buffer|
    ensures Resumed(buffer, off, rest) ==
            Resumed(buffer, off + Taken(rest[0], |buffer| - off), rest[1..])
  {
    var n := Taken(rest[0], |buffer| - off);
    assert buffer[off..][n..] == buffer[off + n..];
    assert buffer[..off] + buffer[off..][..n] == buffer[..off + n];
  }

  /** How a run ends: a failing call, no results left, or nothing pending. */
  lemma ResumedEnd(buffer: seq<char>, off: nat, rest: WriteResults)
    requires off <= |buffer|
    ensures off < |buffer| && rest != [] && rest[0] < 0 ==>
              Resumed(buffer, off, rest) == Transfer(false, buffer[..off], rest[1..])
    ensures off < |buffer| && rest == [] ==> Resumed(buffer, off, rest) == Transfer(true, buffer, [])
    ensures off == |buffer| ==> Resumed(buffer, off, rest) == Transfer(true, buffer, rest)
  {
    assert buffer[..off] + buffer[off..] == buffer;
  }

  /** reliable_write: `len` counts the bytes still pending and `off` the
      bytes already written (the advancing `buffer` pointer). */
  method ReliableWrite(buffer: seq<char>, results: WriteResults)
    returns (ok: bool, wire: seq<char>, rest: WriteResults)
    ensures Transfer(ok, wire, rest) == WriteAll(buffer, results)
  {
    var len := |buffer|;
    var off := 0;
    rest := results;
    assert buffer[0..] == buffer;
    while len != 0
      invariant 0 <= off <= |buffer| && len == |buffer| - off
      invariant WriteAll(buffer, results) == Resumed(buffer, off, rest)
      decreases |rest|, len
    {
      ResumedEnd(buffer, off, rest);
      if rest == [] {
        // the connection takes the remainder
        return true, buffer, [];
      } else {
        var w := rest[0];
        if w < 0 {
          return false, buffer[..off], rest[1..];
        }
        ResumedStep(buffer, off, rest);
        var n := Taken(w, len);
        rest := rest[1..];
        len := len - n;
        off := off + n;
      }
    }
    ResumedEnd(buffer, off, rest);
    ok, wire := true, buffer;
  }

  /** A run uses the write results front to back: what it leaves is a
      suffix of them. */
  lemma {:induction false} RestIsSuffix(buffer: seq<char>, results: WriteResults)
    ensures var rest := WriteAll(buffer, results).rest;
      |rest| <= |results| && rest == results[|results| - |rest|..]
    decreases |results|
  {
    if buffer != [] && results != [] && results[0] >= 0 {
      var n := Taken(results[0], |buffer|);
      RestIsSuffix(buffer[n..], results[1..]);
    }
  }

  /** The number of write results a run uses. */
  function Used(buffer: seq<char>, results: WriteResults): nat {
    |results| - |WriteAll(buffer, results).rest|
  }

  /** reliable_write fails exactly when one of the write calls it made
      returned a negative value, and then that call was its last: every
      result it used before the last one is non-negative. */
  lemma {:induction false} FailsAtFirstNegative(buffer: seq<char>, results: WriteResults)
    ensures var c := Used(buffer, results);
      forall i :: 0 <= i < c ==>
        (results[i] < 0 <==> (!WriteAll(buffer, results).ok && i == c - 1))
  {
    if buffer != [] && results != [] && results[0] >= 0 {
      var n := Taken(results[0], |buffer|);
      var tail := results[1..];
      FailsAtFirstNegative(buffer[n..], tail);
      assert Used(buffer, results) == 1 + Used(buffer[n..], tail);
      forall i | 1 <= i < Used(buffer, results)
        ensures results[i] == tail[i - 1]
      {
      }
    }
  }

  /** With no failing call among the results, the whole buffer reaches the
      connection, front to back, and reliable_write reports success. */
  lemma {:induction false} SucceedsWithoutFailures(buffer: seq<char>, results: WriteResults)
    requires forall i :: 0 <= i < |results| ==> results[i] >= 0
    ensures WriteAll(buffer, results).ok
    ensures WriteAll(buffer, results).wire == buffer
  {
    if buffer != [] && results != [] {
      var n := Taken(results[0], |buffer|);
      SucceedsWithoutFailures(buffer[n..], results[1..]);
    }
  }

  /** A call that returns 0 takes nothing: the loop simply calls write()
      again with the same bytes. */
  lemma ZeroWriteRetries(buffer: seq<char>, results: WriteResults)
    requires buffer != []
    ensures WriteAll(buffer, [0] + results) == WriteAll(buffer, results)
  {
    assert ([0] + results)[1..] == results;
    assert buffer[0..] == buffer;
  }

  /** A call that takes the whole buffer ends the loop after one write. */
  lemma OneShotWrite(buffer: seq<char>, w: int, results: WriteResults)
    requires buffer != [] && w >= |buffer|
    ensures WriteAll(buffer, [w] + results) == Transfer(true, buffer, results)
  {
    assert ([w] + results)[1..] == results;
    assert buffer[|buffer|..] == [];
  }

  /** An empty buffer makes no write call at all. */
  lemma EmptyBufferNoWrite(results: WriteResults)
    ensures WriteAll([], results) == Transfer(true, [], results)
  {
  }

  /** A connection that takes `chunk` bytes per call (as a pipe or a
      socket with a small send buffer does) needs ceil(L / chunk) calls for
      L pending bytes: the fewest calls whose chunks cover them. */
  lemma {:induction false} ChunkedWrite(buffer: seq<char>, chunk: int, results: WriteResults)
    requires chunk > 0
    requires |results| * chunk >= |buffer|
    requires forall i :: 0 <= i < |results| ==> results[i] == chunk
    ensures WriteAll(buffer, results).ok
    ensures Used(buffer, results) * chunk >= |buffer|
    ensures Used(buffer, results) * chunk < |buffer| + chunk
    decreases |results|
  {
    if buffer != [] {
      var n := Taken(chunk, |buffer|);
      var tail := results[1..];
      MulSucc(|tail|, chunk);
      assert forall i :: 0 <= i < |tail| ==> tail[i] == results[i + 1];
      ChunkedWrite(buffer[n..], chunk, tail);
      var u := Used(buffer[n..], tail);
      assert Used(buffer, results) == 1 + u;
      MulSucc(u, chunk);
    }
  }

  lemma MulSucc(u: int, c: int)
    ensures (u + 1) * c == u * c + c
  {
  }
}
