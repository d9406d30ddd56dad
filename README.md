# gcode-cli in Dafny

A model of gcode-cli, a command-line G-code streamer. The streamer opens a connection to a machine controller: a serial terminal at one of seven bit rates, or else a TCP socket. It then throws away whatever the machine sent before the stream began. After that it sends the file one line at a time: it strips comments and trailing white space, skips empty lines, appends exactly one `\n`, and waits after every line for the machine's `ok`.

The model follows the source file by file:

| module (file) | source | form |
|---|---|---|
| `Text` (text.dfy) | `isspace`, `isdigit`, `tolower`, `strchr` | pure functions |
| `Speed` (speed.dfy) | speed selection of `SetTTYParams`, glibc `atoi` | pure functions |
| `Connection` (connection.dfy) | `OpenTTY`, `OpenTCPSocket`, `OpenMachineConnection` | pure functions over an `Env` of success oracles |
| `LineReader` (line_reader.dfy) | `ReadLine` | method with a loop over an `array<char>` |
| `Ack` (ack.dfy) | `WaitForOkAck` | method with a loop, proved against `Await` |
| `Drain` (drain.dfy) | `DiscardPendingInput` | method with a loop, proved against `Discarded` |
| `Writer` (writer.dfy) | `reliable_write` | method with a loop, proved against `WriteAll` |
| `Preprocess` (preprocess.dfy) | line preparation of `main`, `getline` splitting, progress divisor | method with loops, proved against `Payload` |
| `SendLoop` (send_loop.dfy) | the `main` loop and `main` as a whole | methods, proved against `Run` and `Streamed` |

The operating system is represented by values the caller passes in:

- **Bytes the machine sends.** A `seq<char>`. `ReadLine` consumes it byte by byte, and running out of it stands for a failed `read`.
- **Results of `write` calls.** A `seq<int>`:
  - a negative entry is a failed call;
  - any other entry is a byte count, capped at the bytes still pending; 0 means no progress and another attempt;
  - once the sequence is exhausted, the connection accepts the rest.
- **Readiness results and read sizes for draining.** A `seq<Wake>`.
- **`open`, `tcgetattr`/`tcsetattr` and `getaddrinfo`/`connect`.** Predicates in `Connection.Env`.

Each loop in the source is a `method` with a `while` loop. Its `ensures` ties its result to a recursive specification function, and the lemmas about those functions state what the source promises.

Where the code behaves otherwise than the program is documented to, the model follows the code:

- **Invalid bit rate.** An invalid rate is documented as a fatal error in the descriptor, but in the code it does not end the program. `OpenTTY` fails and `OpenMachineConnection` then tries the whole descriptor as a TCP address (`Connection.InvalidRateFallsBackToTcp`).
- **A trailing `\n` adds a line.** The documented examples count a file of two commands, each ended by `\n`, as 2 lines. The loop is `while (!input.eof()) getline(...)`, so a file with k newlines gives k+1 iterations. That is one more than the number of text lines when the file ends in `\n`. Two commands, each ended by `\n`, are therefore counted as 3 lines, not 2 (`SendLoop.TwoCommandStream`).

## Model

| member | source | states |
|---|---|---|
| Text.IndexOf | machine-connection.cc:122 | the position of the first occurrence of the character, or the length when it does not occur: nothing before it is that character |
| Speed.BaudOf | machine-connection.cc:24-38 | a number selects a speed exactly when it is one of the seven whitelisted rates, and the speed selected stands for that rate |
| Speed.BaudOfRate | machine-connection.cc:24-31 | each of the seven speed constants is selected by its own rate |
| Speed.Atoi | machine-connection.cc:23 | atoi of glibc: the result is always a 32-bit int |
| Speed.ToInt32 | machine-connection.cc:23 | the conversion of strtol's long to int leaves values in the int range unchanged and maps every other value into it |
| Speed.Strtol | machine-connection.cc:23 | definition: strtol(s, NULL, 10) of glibc; its contract only bounds the result to a 64-bit long, and its value on a signed run of digits, saturating at both ends, is given by `Speed.StrtolOf` and `Speed.StrtolWithoutDigits` |
| Speed.StrtolOf | machine-connection.cc:23 | for white space, an optional `+` or `-`, a non-empty run of digits and then a non-digit or the end: the signed value of the digits, saturated at LONG_MAX above and at LONG_MIN below |
| Speed.StrtolWithoutDigits | machine-connection.cc:23 | for white space and an optional `+` or `-` that no digit follows, no number is read and the result is 0 |
| Speed.SkipSpaces | machine-connection.cc:23 | atoi skips exactly the leading white space |
| Speed.LeadingDigits | machine-connection.cc:23 | atoi reads the longest run of digits |
| Speed.DecimalString | machine-connection.cc:25-31 | the decimal spelling of a number consists of digits |
| Speed.DigitsValueOfDecimal | machine-connection.cc:23 | reading back a number's decimal spelling gives the number |
| Speed.StrtolOfDigits | machine-connection.cc:23 | strtol of a run of digits is its value, saturated at the long maximum |
| Speed.AtoiOfDecimal | machine-connection.cc:23 | atoi of the decimal spelling of any int-sized number is that number |
| Speed.AtoiOfDecimalWraps | machine-connection.cc:23 | atoi of the spelling of any number up to LONG_MAX, beyond the int range too, is that number wrapped to 32 bits |
| Speed.SelectSpeed | machine-connection.cc:18-39 | one leading `b`/`B` is dropped; nothing left gives 115200; otherwise a speed is selected exactly when atoi of the rest is whitelisted, and it is that rate |
| Speed.DefaultSpeed | machine-connection.cc:19-22 | "", "b" and "B" all give 115200 |
| Speed.WhitelistAccepted | machine-connection.cc:24-31 | every whitelisted rate is accepted, with or without the `b`/`B` prefix |
| Speed.DecimalRateSelected | machine-connection.cc:20-38 | for a spelled-out number up to INT_MAX, with or without prefix, the speed selected is the whitelist lookup of that number |
| Speed.DigitsSelected | machine-connection.cc:20-38 | for any text starting with a digit, with or without prefix, the speed selected is the whitelist lookup of its atoi value |
| Speed.PrefixStripped | machine-connection.cc:20-21 | only one leading `b`/`B` is dropped, and nothing from text that starts with a digit |
| Speed.OffListRateRefused | machine-connection.cc:32-36 | every off-list number up to INT_MAX is refused, bare or with `b` (beyond INT_MAX atoi wraps, see `Speed.WrappedDecimalSelected`) |
| Speed.Refuses12345 | machine-connection.cc:32-36 | "12345" is refused |
| Speed.WrappedDecimalSelected | machine-connection.cc:23-38 | for any number up to the long maximum, the speed selected is that of the number wrapped to 32 bits |
| Speed.WrappedRateAccepted | machine-connection.cc:23-25 | "4294976896" (2^32 + 9600) selects 9600 because atoi wraps |
| Speed.WrapsToRate | machine-connection.cc:23 | 2^32 + 9600 wraps to 9600 |
| Connection.SplitTty | machine-connection.cc:158-164 | the path is the text before the first `,`; the parameters are the text after it, or empty without a comma |
| Connection.SplitTcp | machine-connection.cc:119-127 | the host is the text before the first `:` and the port the text after it; without a colon the host is the whole text and the port is "8888" |
| Connection.SetTtyParams | machine-connection.cc:18-70 | succeeds exactly when the speed is accepted and the terminal can be read and configured at that speed; the speed used is the one selected |
| Connection.OpenTty | machine-connection.cc:157-168 | succeeds exactly when the path before the comma opens and SetTTYParams succeeds on the rest; the channel is that path at the selected speed |
| Connection.OpenTcpSocket | machine-connection.cc:118-155 | succeeds exactly when host and port from the split connect, and the channel is that host and port |
| Connection.OpenMachineConnection | machine-connection.cc:170-175 | no descriptor fails; a serial device that opens is used; otherwise TCP is tried with the whole descriptor; a TCP channel only ever results from a failed serial attempt |
| Connection.InvalidRateFallsBackToTcp | machine-connection.cc:164-174 | a device that opens but has an invalid rate leads to the TCP attempt with the unmodified descriptor |
| Connection.SerialOpened | machine-connection.cc:157-173 | "path,params" with an accepted speed and a working terminal opens that path at that speed |
| Connection.SerialDescriptor | machine-connection.cc:157-173 | "path,RATE" and "path,bRATE" open the path at that rate |
| Connection.SerialParts | machine-connection.cc:158-164 | "path,params" splits back into path and params, even when params contain commas |
| Connection.AddressParts | machine-connection.cc:122-126 | "host:port" splits back into host and port |
| Connection.DefaultTcpPort | machine-connection.cc:120-134 | a host without a colon is reached on port 8888 |
| Connection.TcpFallback | machine-connection.cc:172-174 | "host:port" that is not an openable device connects to that host and port |
| Connection.LocalhostFallback | machine-connection.cc:172-174 | "localhost:4444" reaches localhost port 4444 |
| Connection.DefaultDescriptorParts | main.cc:69 | the default descriptor is /dev/ttyUSB0 at 115200 |
| Connection.DefaultDescriptorSplit | main.cc:69 | the default descriptor splits into "/dev/ttyUSB0" and "b115200" |
| Connection.DefaultRateSelected | main.cc:69 | "b115200" selects 115200 |
| Connection.DefaultRateDigits | main.cc:69 | 115200 is spelled "115200" |
| LineReader.PayloadLength | machine-connection.cc:96-105 | the bytes kept are free of `\n` and `\r` and at most len-1 in number; a shorter run is ended by a line end |
| LineReader.ReadLine | machine-connection.cc:93-110 | on success returns the count kept, with those bytes and a 0 in the buffer, and consumes the stopping byte; when input runs out first returns -1; the rest of the buffer is untouched |
| LineReader.PayloadOfLine | machine-connection.cc:102-104 | a line free of line ends and short enough is read whole |
| Ack.Await | machine-connection.cc:199-222 | what a wait leaves of the responses is a suffix of them |
| Ack.WaitForOkAck | machine-connection.cc:199-222 | returns the verdict and the remaining responses of `Await`: lines are read until one acknowledges or one reports an error |
| Ack.Lowered | machine-connection.cc:208-217 | definition: C-locale lower-casing of every byte; that the acknowledgement check does not depend on case is `Ack.ClassifyIgnoresCase` |
| Ack.ClassifyIgnoresCase | machine-connection.cc:208-217 | the classification of a line does not depend on letter case |
| Ack.OkAcknowledged | machine-connection.cc:208-210 | "ok" and "OK done" acknowledge |
| Ack.FaultRejected | machine-connection.cc:214 | "!!fatal" is an error |
| Ack.ResendRejected | machine-connection.cc:213-217 | "Resend: 42" is an error, through the "resend" test |
| Ack.TemperatureIsChatter | machine-connection.cc:208-221 | temperature reports are skipped |
| Ack.EchoIsChatter | machine-connection.cc:208-221 | "echo: busy" is skipped |
| Ack.AwaitLine | machine-connection.cc:201-221 | a line ended by `\n` or `\r`: a chatter line is skipped; any other line decides, true for `ok`, and nothing past its line end is read |
| Ack.AwaitChatter | machine-connection.cc:201-221 | a run of chatter lines, each ended by `\n`, `\r` or CR LF, is skipped entirely |
| Ack.AwaitFirstDecisive | machine-connection.cc:201-221 | after chatter lines with any of the three line ends, the first decisive line settles the wait; only the `\n` of a CR LF after it stays unread, and the next wait reads the rest as if exactly those lines were consumed |
| Ack.FramedAppend | machine-connection.cc:102 | framing one more line appends it with its own line end |
| Ack.FramedCons | machine-connection.cc:102 | framing a line in front puts it with its own line end in front |
| Ack.AwaitSilence | machine-connection.cc:202-206 | a machine that falls silent before a full line makes the wait fail |
| Ack.LeftoverLineEnd | machine-connection.cc:102 | the `\n` after a line ended by `\r` reads as an empty line and is skipped |
| Ack.AwaitCrLf | machine-connection.cc:101-104 | a line ended by CR LF: a chatter line is skipped with its `\n`; a decisive line settles the wait at the `\r`, leaving the `\n` unread |
| Ack.AwaitChatterLine | machine-connection.cc:201-221 | a chatter line is skipped whichever of the three line ends follows it |
| Ack.AwaitDecisiveLine | machine-connection.cc:201-221 | a decisive line settles the wait whichever line end follows it, and only the `\n` of a CR LF stays unread |
| Ack.LeftoverIgnored | machine-connection.cc:101-104 | what a wait leaves after a line end does not change what the next wait reads |
| Ack.IsTerminator | machine-connection.cc:101 | definition: the line ends a machine sends, `\n`, `\r` or CR LF; the lemmas above are stated for all three |
| Ack.Framed | machine-connection.cc:101 | definition: response lines, each followed by its own line end; its laws are `Ack.FramedAppend` and `Ack.FramedCons` |
| Ack.AwaitAfterTwoChatter | machine-connection.cc:201-221 | two chatter lines and then `ok`, with any line ends, acknowledge and consume those three lines, leaving only the `\n` of a final CR LF |
| Ack.ChatterThenOk | machine-connection.cc:201-221 | "echo: busy", "T:190 /200", "ok", with `\n`, `\r` or CR LF ends, acknowledges after the third line |
| Ack.SampleLinesWellFormed | machine-connection.cc:102 | the sample lines fit the buffer and hold no line end |
| Drain.Discarded | machine-connection.cc:179-195 | the result is -1 or a byte count |
| Drain.DiscardPendingInput | machine-connection.cc:177-196 | a negative fd gives 0; otherwise the result is `Discarded` of the readiness and read results |
| Drain.ReadableRounds | machine-connection.cc:181 | the rounds read are exactly those up to the first wake that is not readable |
| Drain.DiscardedIsChunkSum | machine-connection.cc:181-195 | -1 exactly when a read during the readable rounds failed; otherwise the sum of the chunks read in them |
| Drain.ChunkSumShift | machine-connection.cc:188 | the chunk sum adds the first chunk to the sum of the rest |
| Drain.DiscardedBound | machine-connection.cc:180-183 | with chunks of at most 127 bytes, the bytes discarded are at most 127 per readable round |
| Drain.StaleBytesDiscarded | machine-connection.cc:181-195 | 127 bytes, then 73, then a timeout: 200 bytes discarded |
| Writer.Taken | main.cc:16-19 | a write takes what it reports, at most what is pending |
| Writer.WriteAll | main.cc:14-22 | what goes out is a prefix of the buffer, and the write succeeds exactly when all of it went out |
| Writer.ResumedStep | main.cc:18-19 | after a partial write the rest resumes where it stopped |
| Writer.ResumedEnd | main.cc:15-21 | a negative result fails at once; a finished buffer succeeds without further writes |
| Writer.ReliableWrite | main.cc:14-22 | the outcome, the bytes sent and the unused write results are those of `WriteAll` |
| Writer.RestIsSuffix | main.cc:15-20 | the write results are used front to back |
| Writer.FailsAtFirstNegative | main.cc:17 | among the results used, an entry is negative exactly when the write failed and it was the last one used |
| Writer.SucceedsWithoutFailures | main.cc:14-22 | without negative results the whole buffer goes out |
| Writer.ZeroWriteRetries | main.cc:15-19 | a write of 0 bytes changes nothing and is retried |
| Writer.OneShotWrite | main.cc:15-21 | a write of the whole buffer finishes after one call |
| Writer.EmptyBufferNoWrite | main.cc:15 | an empty buffer succeeds without any write |
| Writer.ChunkedWrite | main.cc:15-21 | writes of a fixed chunk size finish after the ceiling of length over chunk calls |
| Preprocess.Uncommented | main.cc:90-93 | the text before the first `;`: a prefix without `;`, cut at a `;` |
| Preprocess.TrimRight | main.cc:96-98 | a prefix that drops only white space and does not end in white space |
| Preprocess.PrepareLine | main.cc:87-98 | the method's loops compute `Payload` of the line |
| Preprocess.Frame | main.cc:108 | definition: the payload followed by one `\n`; that each frame holds no other `\n` is `SendLoop.FramesWellFramed` |
| Preprocess.PayloadShape | main.cc:87-98 | the payload is a prefix of the line, holds no `;`, does not end in white space, and only white space lies between it and the comment |
| Preprocess.PayloadOf | main.cc:87-98 | code, then white space, then a comment: the payload is the code |
| Preprocess.TrimPadding | main.cc:96-98 | trailing white space after code is removed entirely |
| Preprocess.PayloadIdempotent | main.cc:87-98 | preparing a prepared line changes nothing |
| Preprocess.CarriageReturnTrimmed | main.cc:96-98 | the `\r` of CRLF input is removed |
| Preprocess.UncommentedAppend | main.cc:90-93 | text after a comment does not matter |
| Preprocess.CommentedMove | main.cc:87-98 | "G1 X10 ; move to start" is sent as "G1 X10" |
| Preprocess.InputLines | main.cc:83-84 | the file yields at least one line, and no line holds a `\n` |
| Preprocess.InputLineCount | main.cc:83-85 | the loop runs once more than there are `\n` in the file |
| Preprocess.JoinedInputLines | main.cc:83-84 | the lines, joined by `\n`, give back the file |
| Preprocess.InputLinesOfJoined | main.cc:83-84 | lines without `\n`, joined, are read back as the same lines |
| Preprocess.TrailingLineEnd | main.cc:83-84 | a file ending in `\n` yields one more, empty, line |
| Preprocess.JoinedAppend | main.cc:83-84 | joining one more line adds a `\n` and the line |
| Preprocess.ProgressDivisor | main.cc:63 | the divisor is at least 1 for any file size tellg reports, so the percent division never divides by zero |
| Preprocess.PercentInRange | main.cc:63-105 | for an offset within the file, the percentage is between 0 and 99 |
| SendLoop.SendLines | main.cc:79-125 | the loop's result is `Run`: per line, count it, skip it when empty, write its frame, stop on a failed write, then wait for the acknowledgement and go on whatever it says |
| SendLoop.FramesOf | main.cc:108-110 | definition: the frame of each logged event, in order; how it grows with the log is `SendLoop.FramesOfCons` and what a completed run writes is `SendLoop.RunFromCompletedLog` |
| SendLoop.FramesSplit | main.cc:101-108 | an empty payload contributes no frame, any other payload its own frame |
| SendLoop.AdvanceFacts | main.cc:85-124 | the whole next state: an empty payload only counts the line (no write, no wait); a non-empty one goes on only after a successful write, is counted and sent, and is logged with the verdict of the one wait that follows, whose leftover responses and the write's leftover results are what the next line sees |
| SendLoop.StopFacts | main.cc:110-113 | only a non-empty line can stop the loop; it is counted but not sent, the failed write is logged with the part that went out, and no wait follows: the responses are untouched |
| SendLoop.RunFromCounters | main.cc:85-118 | the counters only grow, the line count by at most the number of lines, the sent count by no more than the line count |
| SendLoop.RunFromCompletedCounts | main.cc:85-118 | a completed run counts every line and sends every non-empty one |
| SendLoop.RunFromCompletedSent | main.cc:110-118 | in a completed run every logged event is a successful send |
| SendLoop.RunFromCompletedLog | main.cc:108-110 | in a completed run the frames written are exactly the frames of the non-empty lines, in order |
| SendLoop.FramesOfCons | main.cc:108-110 | the frames of events are taken front to back |
| SendLoop.LogExtends | main.cc:110-118 | the log only grows |
| SendLoop.FailurePoint | main.cc:110-113 | the number of lines got through, at most all of them (that a failed run stops at one of its lines is `SendLoop.FailedRunSplits`) |
| SendLoop.FailedRunSplits | main.cc:83-113 | a failed run is a completed run over the lines before one line, whose write then fails |
| SendLoop.FailedRunEnd | main.cc:110-113 | the failing line is non-empty, counted and not sent, and its frame went out only in part |
| SendLoop.FramesAppend | main.cc:101-108 | the frames of more lines extend the frames of the first ones |
| SendLoop.RunFromFailedCounts | main.cc:85-118 | a failed run stops at a non-empty line, having sent every non-empty line before it |
| SendLoop.RunFromFailedLog | main.cc:110-118 | a failed run logs successful sends followed by one failed write of the stopping line |
| SendLoop.RunFromFailedFrames | main.cc:108-113 | a failed run wrote the frames of the lines up to and including the stopping line |
| SendLoop.RunFromWithoutWriteErrors | main.cc:110-113 | without a failing write the run completes |
| SendLoop.CountersBounded | main.cc:85-118 | lines sent never exceed lines counted, which never exceed the lines of the file |
| SendLoop.RunCompleted | main.cc:83-125 | a completed run counts every line, sends the non-empty ones, logs only successful sends, and writes exactly their frames in order |
| SendLoop.Waits | machine-connection.cc:199-222 | n successive waits, each reading on from where the previous stopped: n verdicts, the first that of the first wait |
| SendLoop.Acks | main.cc:121 | definition: the verdict of each logged event, none for a failed write; how it grows with the log is `SendLoop.AcksCons` and what a completed run reads is `SendLoop.RunFromCompletedWaits` |
| SendLoop.AcksCons | main.cc:121 | verdicts are taken front to back |
| SendLoop.WaitsStep | machine-connection.cc:199-222 | one more wait reads first and leaves the rest to the others |
| SendLoop.RunFromCompletedWaits | main.cc:101-124 | in a completed run from any state, each non-empty line is followed by exactly one wait and empty lines by none: the logged verdicts are those of as many successive waits as there are non-empty lines, and the responses left are what they leave |
| SendLoop.RunFromFailedWaits | main.cc:101-124 | a run ended by a send error waited once after each non-empty line before the failing one and not after the failed write |
| SendLoop.FailedWaitsGlue | main.cc:110-113 | the failed write adds one event after those of the completed part |
| SendLoop.RunAnswers | main.cc:83-125 | a completed run's verdicts and leftover responses are those of one wait per non-empty line, in order |
| SendLoop.RunWithoutWriteErrors | main.cc:110-124 | rejected or missing acknowledgements never stop the run: only a write can |
| SendLoop.FramesWellFramed | main.cc:87-108 | every frame ends in one `\n`, holds no other `\n` and no `;`, and has no white space before the final `\n` (a `\r` inside a line is sent as it is) |
| SendLoop.CleanPayload | main.cc:87-103 | a line without comment or trailing white space is sent unchanged |
| SendLoop.TwoCommandLines | main.cc:83-84 | two commands, each ended by `\n`, are three lines, the last empty |
| SendLoop.TwoCommandFrames | main.cc:101-108 | those three lines give two frames |
| SendLoop.TwoCommandStream | main.cc:83-125 | two commands with working writes: 3 lines counted, 2 sent, and exactly their frames written |
| SendLoop.TwoSentFrom | main.cc:83-124 | two clean lines and an empty one: each line's wait reads on from where the previous one stopped |
| SendLoop.TwoCommandAnswers | main.cc:83-124 | two commands: the first wait reads the first answer, the second reads on from there |
| SendLoop.RejectedThenAcknowledged | main.cc:110-124 | an error for the first command pauses but does not stop the loop; the second command is sent once and acknowledged; neither is sent twice |
| SendLoop.SentStep | main.cc:85-118 | a clean line with working writes is counted, sent and logged with the wait's verdict |
| SendLoop.RunThree | main.cc:83-103 | a final empty line after two sent lines is only counted |
| SendLoop.WriteOk | main.cc:110 | a write without negative results succeeds and leaves only non-negative results |
| SendLoop.Stream | main.cc:52-132 | the exit status and the session are those of `Streamed` |
| SendLoop.StreamedSucceeds | main.cc:52-132 | the program succeeds exactly when it has a file argument, a connection, and a run without a failed write; it then has counted one line more than the file's `\n` and written exactly the frames of its non-empty lines |
| SendLoop.UsageFails | main.cc:53-54 | without a file argument the program fails and streams nothing |
| SendLoop.StreamedFramesWellFramed | main.cc:87-110 | every frame the program can write to the machine is well framed |
| Text.IsSpace | main.cc:96 | definition: isspace() of the C locale (space, `\t`, `\n`, `\v`, `\f`, `\r`) |
| Text.ToLower | machine-connection.cc:208-217 | definition: tolower() of the C locale, only `A`-`Z` change |
| Speed.StripRatePrefix | machine-connection.cc:20-21 | definition: one leading `b` or `B` is dropped |
| Text.IsDigit | machine-connection.cc:23 | definition: isdigit(), the characters `0`-`9` that strtol reads as digits |
| Speed.DigitValue | machine-connection.cc:23 | definition: the value of one decimal digit; used by `Speed.DigitsValue` |
| Speed.DigitsValue | machine-connection.cc:23 | definition: the number a run of digits denotes, most significant first; that it reads back a decimal spelling is `Speed.DigitsValueOfDecimal` and that strtol returns it is `Speed.StrtolOfDigits` |
| Preprocess.TruncatedDiv | main.cc:63-105 | definition: C's integer `/`, rounding toward zero, as used for `input_length` and `percent_complete`; that the percentage stays within 0-99 is `Preprocess.PercentInRange` |
| Ack.StartsWithIgnoringCase | machine-connection.cc:208-217 | definition: strncasecmp of the first bytes of the line against the prefix returns 0 |
| Ack.Classify | machine-connection.cc:208-220 | definition: the `ok` test first, then the five error prefixes with their length guards, anything else chatter |
| Preprocess.Payload | main.cc:90-98 | definition: cut at the first `;`, then drop trailing white space (its properties: `Preprocess.PayloadShape`, `Preprocess.PayloadOf`) |
| SendLoop.Advance | main.cc:84-124 | definition: one iteration; its properties are `SendLoop.AdvanceFacts` and `SendLoop.StopFacts` |
| SendLoop.RunFrom | main.cc:83-125 | definition: the loop from a given state, stopping at the first failed write |
| SendLoop.Run | main.cc:79-125 | definition: the loop from zero counters, an empty log and the connection's responses and write results |
| SendLoop.DescriptorOf | main.cc:69 | definition: the second argument, or "/dev/ttyUSB0,b115200" |
| SendLoop.Streamed | main.cc:52-132 | definition: usage failure, connection failure, or the exit status of the loop (its properties: `SendLoop.StreamedSucceeds`, `SendLoop.UsageFails`) |

## Left out

- Terminal configuration (`tcgetattr`/`tcsetattr`, `cfset*speed`, the flag bits at machine-connection.cc:41-68) is foreign OS calls. It is the `isTty` and `configures` predicates of `Env`.
- Socket setup (`getaddrinfo`, `socket`, `connect`, `close`, `strdup`/`free`) is network I/O. It is the `connects` predicate of `Env`; only the host/port split is modelled.
- The timing of `AwaitReadReady` (`select`, `timeval`) is not modelled. Each round of `DiscardPendingInput` is a `Wake` value: readable, timed out or failed.
- Output is left out because it has no effect on the protocol. This covers the echo in `ReadLine`, every `printf`/`fprintf`/`perror` diagnostic, the thousands-separator locale, the `usage` text and the final summary line.
- The operator pause `getchar()` after a rejected acknowledgement (main.cc:123) is a no-op step, because keyboard input is outside the model.
- File reading (`ifstream`, `seekg`/`tellg`, `getline`) is I/O. The file is a string, split at `\n` the way the `getline` loop splits it.
- The loop for a file that cannot be opened is not modelled: an `ifstream` that failed to open never reaches end of file, so main.cc:83 would loop forever. The model always has the file's text.
- The percentage printed at main.cc:105 belongs to the output. Only its divisor (never zero) and its range are stated, and a `tellg` of -1 after end of file is not treated separately.
- `Stream` takes no argument for the byte level of the connection. The bytes thrown away by `DiscardPendingInput` are given as `Wake` values independent of the response bytes the acknowledgements read.
- Resource handling is left out: `OpenTTY` leaks its descriptor when `SetTTYParams` fails (machine-connection.cc:164-166), and `close(machine_fd)` runs at the end. Nothing in the model claims a handle is released.
- SendLoop.Advance: `line_count` and `lines_sent` are unbounded integers. The source's `int` counters would overflow only past 2^31 lines.
- Writer.WriteAll: a `write` that returns 0 forever would make `reliable_write` spin forever. Because the write results are a finite sequence, such a run cannot be expressed; when the sequence runs out, the connection accepts the rest.
- LineReader.ReadLine: requires `1 <= len`. Its only caller passes 512; a `len` of 0 would make the bound -1 and is not modelled.
- Drain.Discarded: the wakes are a finite sequence, after which the connection counts as quiet. A connection at end of file (a TCP peer that closed, a terminal that hung up) stays readable while `read` returns 0, so `DiscardPendingInput` at machine-connection.cc:181-189 would loop forever; the model cannot express that run. Its `total_bytes` is an unbounded integer, where the source's `int` would overflow only past 2^31 bytes.
- Ack.Await: running out of response bytes stands for a failed read, so in the model a read failure is permanent. A transient read error followed by an `ok`, which the next `WaitForOkAck` of the source would read, cannot be expressed.
