/** ReadLine of machine-connection.cc: one response line, read a byte at a
    time from the machine into a caller's buffer.  The bytes the machine
    still has to deliver are a sequence; when it runs out, read() has
    failed (an error or the end of the stream). */
module LineReader {

  predicate IsLineEnd(c: char) {
    c == '\n' || c == '\r'
  }

  /** How many bytes ReadLine keeps: those before the first line end, but
      no more than `max`. */
  function PayloadLength(input: seq<char>, max: nat): (k: nat)
    ensures k <= max && k <= |input|
    ensures forall i :: 0 <= i < k ==> !IsLineEnd(input[i])
    ensures k < |input| && k < max ==> IsLineEnd(input[k])
  {
    if input == [] || max == 0 || IsLineEnd(input[0]) then 0
    else 1 + PayloadLength(input[1..], max - 1)
  }

  /** Reads into `buffer`, which holds `len` bytes, until a '\n' or '\r'
      arrives or `len - 1` bytes are stored.  The byte that stops the read
      is consumed but not kept: a NUL goes in its place and the number of
      bytes kept is returned.  When the input runs out first, the result is
      -1 and everything read so far is in the buffer, unterminated. */
  method ReadLine(input: seq<char>, buffer: array<char>, len: int) returns (n: int, rest: seq<char>)
    requires 1 <= len <= buffer.Length
    modifies buffer
    ensures var k := PayloadLength(input, len - 1);
      if k < |input| then
        && n == k && rest == input[k + 1..]
        && buffer[..k] == input[..k] && buffer[k] == '\0'
        && buffer[k + 1..] == old(buffer[k + 1..])
      else
        && n == -1 && rest == []
        && buffer[..|input|] == input && buffer[|input|..] == old(buffer[|input|..])
  {
    var bytesRead := 0;
    var max := len - 1;  // room for the ending NUL
    rest := input;
    while rest != []
      invariant 0 <= bytesRead <= max && bytesRead <= |input|
      invariant rest == input[bytesRead..]
      invariant forall i :: 0 <= i < bytesRead ==> buffer[i] == input[i]
      invariant forall i :: bytesRead <= i < buffer.Length ==> buffer[i] == old(buffer[i])
      invariant PayloadLength(input, max) == bytesRead + PayloadLength(rest, max - bytesRead)
    {
      var c := rest[0];
      buffer[bytesRead] := c;  // read(fd, result, 1) stores the byte
      rest := rest[1..];
      if c == '\n' || c == '\r' || bytesRead >= max {
        buffer[bytesRead] := '\0';
        n := bytesRead;
        return;
      }
      bytesRead := bytesRead + 1;
    }
    n := -1;
  }

  /** A line of at most `max` bytes followed by a line end is read whole,
      and the remaining input starts right after the line end. */
  lemma PayloadOfLine(line: seq<char>, end: char, tail: seq<char>, max: nat)
    requires forall i :: 0 <= i < |line| ==> !IsLineEnd(line[i])
    requires IsLineEnd(end) && |line| <= max
    ensures PayloadLength(line + [end] + tail, max) == |line|
  {
    var input := line + [end] + tail;
    var k := PayloadLength(input, max);
    assert input[|line|] == end;
    assert forall i :: 0 <= i < |line| ==> input[i] == line[i];
  }
}
