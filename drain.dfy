/** DiscardPendingInput of machine-connection.cc: before the first command,
    whatever the machine has already sent is read and thrown away, for as
    long as it keeps the connection readable. */
module Drain {

  /** One round of the drain loop, as the system answers it:
      AwaitReadReady reported the connection readable (> 0) and read()
      returned `got`; or it reported a timeout (0); or select() failed (-1). */
  datatype Wake = Readable(got: int) | TimedOut | PollFailed

  /** read() is asked for at most 127 bytes (one byte of the 128-byte
      buffer is kept for the NUL). */
  const ChunkSize: int := 127

  /** What DiscardPendingInput returns for an open connection: the bytes
      read while the connection stays readable, or -1 as soon as a read
      fails.  After the scripted rounds the machine is quiet. */
  function Discarded(wakes: seq<Wake>): (r: int)
    ensures r >= -1
  {
    if wakes == [] || !wakes[0].Readable? then 0
    else if wakes[0].got < 0 then -1
    else
      var rest := Discarded(wakes[1..]);
      if rest < 0 then -1 else wakes[0].got + rest
  }

  /** DiscardPendingInput: 0 for a connection that is not open (fd < 0),
      otherwise the total the drain loop reaches. */
  method DiscardPendingInput(fd: int, wakes: seq<Wake>) returns (total: int)
    ensures total == if fd < 0 then 0 else Discarded(wakes)
  {
    if fd < 0 {
      return 0;
    }
    total := 0;
    var i := 0;
    while i < |wakes| && wakes[i].Readable?
      invariant 0 <= i <= |wakes|
      invariant total >= 0
      invariant Discarded(wakes) == (if Discarded(wakes[i..]) < 0 then -1 else total + Discarded(wakes[i..]))
    {
      var r := wakes[i].got;
      if r < 0 {
        return -1;  // "reading trouble"
      }
      total := total + r;  // the chunk is echoed as "DISCARD: ..."
      i := i + 1;
    }
  }

  /** The number of rounds in which the connection was readable, before
      the first timeout or poll error. */
  function ReadableRounds(wakes: seq<Wake>): (n: nat)
    ensures n <= |wakes|
    ensures forall i :: 0 <= i < n ==> wakes[i].Readable?
    ensures n < |wakes| ==> !wakes[n].Readable?
  {
    if wakes == [] || !wakes[0].Readable? then 0 else 1 + ReadableRounds(wakes[1..])
  }

  /** The sum of the chunk sizes of the first `n` rounds. */
  function ChunkSum(wakes: seq<Wake>, n: nat): int
    requires n <= |wakes| && forall i :: 0 <= i < n ==> wakes[i].Readable?
  {
    if n == 0 then 0 else ChunkSum(wakes, n - 1) + wakes[n - 1].got
  }

  /** The drain fails exactly when one of the readable rounds has a failed
      read; otherwise it returns the sum of the chunks read in those rounds,
      and the rounds after the first timeout or poll error are never
      looked at. */
  lemma {:induction false} DiscardedIsChunkSum(wakes: seq<Wake>)
    ensures var n := ReadableRounds(wakes);
      && (Discarded(wakes) == -1 <==> exists i :: 0 <= i < n && wakes[i].got < 0)
      && (Discarded(wakes) >= 0 ==> Discarded(wakes) == ChunkSum(wakes, n))
  {
    if wakes != [] && wakes[0].Readable? {
      var tail := wakes[1..];
      DiscardedIsChunkSum(tail);
      var m := ReadableRounds(tail);
      assert forall i :: 0 <= i < m ==> tail[i] == wakes[i + 1];
      ChunkSumShift(wakes, m);
      if wakes[0].got >= 0 && Discarded(tail) == -1 {
        var j :| 0 <= j < m && tail[j].got < 0;
        assert wakes[j + 1].got < 0;
      }
      if exists i :: 0 <= i < m + 1 && wakes[i].got < 0 {
        var i :| 0 <= i < m + 1 && wakes[i].got < 0;
        if i > 0 {
          assert tail[i - 1].got < 0;
        }
      }
    }
  }

  /** Dropping the first round shifts the sum. */
  lemma {:induction false} ChunkSumShift(wakes: seq<Wake>, m: nat)
    requires m + 1 <= |wakes| && forall i :: 0 <= i < m + 1 ==> wakes[i].Readable?
    ensures ChunkSum(wakes, m + 1) == wakes[0].got + ChunkSum(wakes[1..], m)
  {
    if m > 0 {
      ChunkSumShift(wakes, m - 1);
    }
  }

  /** Each read asks for at most 127 bytes, so a drain of n readable
      rounds returns at most 127 * n bytes. */
  lemma {:induction false} DiscardedBound(wakes: seq<Wake>)
    requires forall i :: 0 <= i < |wakes| && wakes[i].Readable? ==> wakes[i].got <= ChunkSize
    ensures Discarded(wakes) <= ChunkSize * ReadableRounds(wakes)
  {
    if wakes != [] && wakes[0].Readable? {
      DiscardedBound(wakes[1..]);
    }
  }

  /** A machine holding 200 stale bytes, delivered as 127 and 73 before it
      goes quiet, has all 200 discarded. */
  lemma StaleBytesDiscarded()
    ensures Discarded([Readable(127), Readable(73), TimedOut]) == 200
  {
  }
}
