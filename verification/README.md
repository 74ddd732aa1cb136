# Sirona stop watch and agent argument parsing, in Dafny

This project models two parts of Apache Sirona (formerly Commons Monitoring) and proves
properties about them.

1. **`DefaultStopWatch`**, the probe that times one execution of monitored code.
   - Constructing it increments the monitor's concurrency gauge.
   - `pause`, `resume`, `stop`, `stop(boolean)` and `cancel` move it between running, paused and halted.
   - `getElapsedTime` reads it.
   - Stopping decrements the gauge and adds the elapsed nanoseconds to the monitor's performance counter.
   - Cancelling only decrements the gauge.
2. **The string helpers of `SironaAgent`**, the Java agent's entry class.
   - `decode` percent-decodes the path of the agent jar.
   - `extractConfig` reads the value after a `key=` prefix of the agent argument string.
   - `extractParameters` splits `k=v|k2=v2|...` into a map.

## Modules

- `outcomes.dfy` (`Outcomes`) holds `Option` and `Result`.
  - Java `null` is `None`.
  - A thrown exception is a `Failure`.
- `int64.dfy` (`Int64`) holds Java `long` as the subset type `Long`.
  - `Sub` is `long` subtraction with two's-complement wrap-around, written out explicitly.
- `stopwatch.dfy` (`StopWatch`) models the watch.
  - A watch is an immutable record of the five fields of the Java object.
  - Each operation takes the clock reading `now` (`System.nanoTime()`) as an argument.
  - Each returns a `Step`: the new record plus the monitor updates it made, in order.
  - The updates are `Inc` and `Dec` on the gauge, and `Add(nanos)` on the counter.
- `lifecycle.dfy` (`Lifecycle`) runs whole sequences of calls on a watch.
  - It proves gauge balance, idempotent termination and bounds on the reading.
  - It works out what a stop records after a series of pauses.
- `percent_decoding.dfy` (`PercentDecoding`) models `decode`.
  - It proves the round trip from a description of the decoded path.
- `agent_args.dfy` (`AgentArgs`) models `extractConfig` and `extractParameters`.
  - It models `String.indexOf` and `String.split("\\|")` as plain functions.
  - It proves the round trip of `extractParameters`.

## Where the code and its documentation disagree

The model follows the code in each of these cases.

- **Pauses do not add up.** This is listed under "## Findings".
  - What the code does: `resume` and `stop` assign `pauseDelay = now - stopedAt` (`DefaultStopWatch.java:95`, `:113`). They do not add to the earlier delay, so only the last pause is subtracted.
  - What the model proves about the code as written:
    - `Lifecycle.StopAfterPausesRecordsSpanMinusLastPause` gives the value recorded after any chain of pauses.
    - `Lifecycle.SecondPauseReplacesFirst` is a concrete case: two pauses of 10 in a lifetime of 100 record 90, not 80.
    - `Lifecycle.PauseDelayCanShrink` shows the delay can go down.
  - With at most one pause the two behaviours agree (`Lifecycle.AtMostOnePauseRecordsActiveTime`).
  - The corrected behaviour adds each pause to the delay (`StopWatch.ResumeAccumulating`, `StopWatch.StopAccumulating`). It records the active time after any chain of pauses (`Lifecycle.AccumulatingStopRecordsActiveTime`).
- **A `null` monitor is not supported.**
  - What the code does: the constructor's comment allows a `null` monitor (`DefaultStopWatch.java:37`), but `doStart` dereferences it (`:51`).
  - What the model does: `StopWatch.Create` returns `Failure(NullMonitor)` for `None`.
- **`cancel` leaves `stopedAt` alone.**
  - What the code does: after cancelling a running watch, `getElapsedTime` computes from the stale `stopedAt`, which is 0 for a watch that was never paused.
  - What the model proves: `Lifecycle.CancelledRunningWatchReadsStaleStop` shows the reading becomes minus the start instant.
- **`stop` keeps the `paused` flag.** A watch stopped while paused still reports `isPaused()` (`Lifecycle.StoppedWhilePausedStaysPaused`).

## Model

| member | source | states |
|---|---|---|
| Int64.Sub | core/src/main/java/org/apache/commons/monitoring/stopwatches/DefaultStopWatch.java:63 | Java `long` subtraction: it equals the mathematical difference when that fits in 64 bits. It is always congruent to it modulo 2^64, and it differs from it exactly when it overflows. |
| StopWatch.Create | core/src/main/java/org/apache/commons/monitoring/stopwatches/DefaultStopWatch.java:41-52 | Construction fails if and only if there is no monitor. Otherwise it records the start instant, the watch is running (neither stopped nor paused), it makes exactly one gauge increment, and it reads 0 at once. |
| StopWatch.Elapsed | core/src/main/java/org/apache/commons/monitoring/stopwatches/DefaultStopWatch.java:59-70 | The reading is measured up to `stopedAt` for a stopped or paused watch and up to `now` for a running one, minus the start and the pause delay. This is exact whenever no subtraction overflows. |
| StopWatch.Pause | core/src/main/java/org/apache/commons/monitoring/stopwatches/DefaultStopWatch.java:77-84 | Only a running watch pauses. It remembers `now` and then reads the same value at every later instant, the value it had when paused. Any other watch is unchanged. Pausing never touches the monitor. |
| StopWatch.Resume | core/src/main/java/org/apache/commons/monitoring/stopwatches/DefaultStopWatch.java:91-99 | Only a paused, unstopped watch resumes. The pause delay becomes the length of this pause, replacing the old one, and `stopedAt` is reset to 0. On a monotonic clock it then reads exactly the time from start to pause. Any other watch is unchanged. |
| StopWatch.Stop | core/src/main/java/org/apache/commons/monitoring/stopwatches/DefaultStopWatch.java:106-125 | On a stopped watch it does nothing. Otherwise it halts the watch at `now`, folds a pending pause into the delay and keeps the paused flag. It freezes the reading, then emits `Dec` followed by `Add` of the final reading. That reading is the running reading at `now`, or the time up to the pause for a paused watch. |
| StopWatch.Cancel | core/src/main/java/org/apache/commons/monitoring/stopwatches/DefaultStopWatch.java:149-161 | On a stopped watch it does nothing. Otherwise it only sets the stopped flag (`stopedAt` is untouched) and emits exactly one `Dec` and no sample. |
| StopWatch.StopWith | core/src/main/java/org/apache/commons/monitoring/stopwatches/DefaultStopWatch.java:132-142 | `stop(true)` is `cancel()` and `stop(false)` is `stop()`. The watch ends stopped either way. A live watch emits `Dec` first, followed by a sample if and only if it was not cancelled. |
| StopWatch.IsStoped | core/src/main/java/org/apache/commons/monitoring/stopwatches/DefaultStopWatch.java:203-206 | `isStoped()` is true exactly when the watch is halted, that is, once it was stopped or cancelled. |
| StopWatch.IsPaused | core/src/main/java/org/apache/commons/monitoring/stopwatches/DefaultStopWatch.java:213-216 | `isPaused()` is false on a running watch. On a live watch it is true exactly when the watch is paused. A halted watch may still report it (see `Lifecycle.StoppedWhilePausedStaysPaused`). |
| StopWatch.ResumeAccumulating | core/src/main/java/org/apache/commons/monitoring/stopwatches/DefaultStopWatch.java:91-99 | The corrected `resume`: a paused, unstopped watch resumes with the pause just ended added to its delay. When nothing overflows, the reading right after resuming equals the reading the pause froze. Any other watch is unchanged. |
| StopWatch.StopAccumulating | core/src/main/java/org/apache/commons/monitoring/stopwatches/DefaultStopWatch.java:106-125 | The corrected `stop`: it halts a live watch at `now` with a pending pause added to the delay, freezes the reading, and emits `Dec` then `Add`. When nothing overflows, the sample is the reading the watch had just before the stop, paused or running. |
| Lifecycle.Apply | core/src/main/java/org/apache/commons/monitoring/stopwatches/DefaultStopWatch.java:77-161 | A single call keeps the start instant and does nothing on a stopped watch. Pause and resume leave the monitor alone. A stop halts the watch and emits `Dec` and its reading. A cancel halts it and emits one `Dec`. |
| Lifecycle.Run | core/src/main/java/org/apache/commons/monitoring/stopwatches/DefaultStopWatch.java:77-161 | A call sequence on a live watch leaves exactly what its first ending call dictates. With no stop or cancel, the watch is live and the log is empty. After a cancel, it is stopped with one `Dec`. After a stop, it is stopped with `Dec` and one sample of its final reading. |
| Lifecycle.Lifecycle | core/src/main/java/org/apache/commons/monitoring/stopwatches/DefaultStopWatch.java:41-161 | A whole lifetime fails if and only if there is no monitor. Otherwise its log is `[Inc]`, `[Inc, Dec]` or `[Inc, Dec, Add(reading)]`, depending on whether the calls never end the watch, first cancel it, or first stop it. |
| Lifecycle.ShapeCounts | core/src/main/java/org/apache/commons/monitoring/stopwatches/DefaultStopWatch.java:49-161 | For each of the three possible logs: the net gauge change is 1 only for the open one, every prefix keeps the gauge within [0, 1], and only the stopped one carries a sample. |
| Lifecycle.GaugeBalance | core/src/main/java/org/apache/commons/monitoring/stopwatches/DefaultStopWatch.java:49-161 | Over any call sequence, the net gauge change is 0 once the watch is stopped or cancelled and 1 before. No prefix of the log drives the gauge below 0 or above 1. Exactly one sample is recorded if the first ending call was a stop, and none otherwise. |
| Lifecycle.CallsAfterEndingAreInert | core/src/main/java/org/apache/commons/monitoring/stopwatches/DefaultStopWatch.java:77-156 | Once a sequence contains a stop or cancel, appending any further calls changes neither the watch nor the log. |
| Lifecycle.ClockBetweenBounds | core/src/main/java/org/apache/commons/monitoring/stopwatches/DefaultStopWatch.java:193-196 | On a clock that never runs backwards, the first reading and the final one lie within the bounds. |
| Lifecycle.ApplyKeepsConsistent | core/src/main/java/org/apache/commons/monitoring/stopwatches/DefaultStopWatch.java:77-119 | On a monotonic clock, pause, resume and stop keep the watch consistent: the pause delay is non-negative and within the span measured so far, and a running watch has `stopedAt` 0. |
| Lifecycle.RunKeepsConsistent | core/src/main/java/org/apache/commons/monitoring/stopwatches/DefaultStopWatch.java:77-119 | Any never-cancelled call sequence on a monotonic clock preserves that invariant. |
| Lifecycle.ElapsedWithinSpan | core/src/main/java/org/apache/commons/monitoring/stopwatches/DefaultStopWatch.java:59-70 | After any never-cancelled lifetime on a monotonic clock, the reading lies between 0 and the time since construction. |
| Lifecycle.ElapsedWithinSpanAfterStop | core/src/main/java/org/apache/commons/monitoring/stopwatches/DefaultStopWatch.java:59-156 | The same bound holds when any calls, cancels included, follow a never-cancelled lifetime that ended in a stop. |
| Lifecycle.ChainedBounds | core/src/main/java/org/apache/commons/monitoring/stopwatches/DefaultStopWatch.java:91-99 | For pause intervals that follow each other in time, the last pause and the total of all pauses both lie between 0 and the whole span. |
| Lifecycle.PausesThenStop | core/src/main/java/org/apache/commons/monitoring/stopwatches/DefaultStopWatch.java:91-124 | A running watch paused and resumed over a chain of intervals and then stopped emits `Dec` and a sample. The sample is the span minus the last pause, or minus the existing delay when there were no pauses. |
| Lifecycle.StopAfterPausesRecordsSpanMinusLastPause | core/src/main/java/org/apache/commons/monitoring/stopwatches/DefaultStopWatch.java:91-124 | From construction, any chain of pauses then a stop logs `Inc`, `Dec`, and the time since construction minus the last pause only. |
| Lifecycle.AtMostOnePauseRecordsActiveTime | core/src/main/java/org/apache/commons/monitoring/stopwatches/DefaultStopWatch.java:91-124 | With at most one pause, the sample is the active time: the span minus all time spent paused. |
| Lifecycle.AccumulatingPausesThenStop | core/src/main/java/org/apache/commons/monitoring/stopwatches/DefaultStopWatch.java:91-124 | With pauses added up, a running watch paused over a chain of intervals and then stopped emits `Dec` and a sample. The sample is the span minus its earlier delay and minus every pause. |
| Lifecycle.AccumulatingStopRecordsActiveTime | core/src/main/java/org/apache/commons/monitoring/stopwatches/DefaultStopWatch.java:91-124 | The corrected behaviour: from construction, any chain of pauses then a stop records the active time, that is, the span minus all time spent paused. |
| Lifecycle.AccumulatingSecondPause | core/src/main/java/org/apache/commons/monitoring/stopwatches/DefaultStopWatch.java:95 | The two-pause lifetime of `SecondPauseReplacesFirst` records its active time of 80 when pauses are added up. |
| Lifecycle.PauseResumeStopExample | core/src/main/java/org/apache/commons/monitoring/stopwatches/DefaultStopWatch.java:59-124 | Start at 0, pause at 100, resume at 150 and stop at 300 leave a delay of 50 and record a sample of 250. |
| Lifecycle.CancelExample | core/src/main/java/org/apache/commons/monitoring/stopwatches/DefaultStopWatch.java:149-161 | Cancelling a fresh watch logs `Inc, Dec` and nothing else. |
| Lifecycle.SecondPauseReplacesFirst | core/src/main/java/org/apache/commons/monitoring/stopwatches/DefaultStopWatch.java:95 | Two pauses of 10 in a lifetime of 100 record 90, whereas the active time is 80. |
| Lifecycle.PauseDelayCanShrink | core/src/main/java/org/apache/commons/monitoring/stopwatches/DefaultStopWatch.java:91-99 | A pause of 50 followed by one of 5 leaves a pause delay of 5. |
| Lifecycle.CancelledRunningWatchReadsStaleStop | core/src/main/java/org/apache/commons/monitoring/stopwatches/DefaultStopWatch.java:149-156 | A running watch started at 1000 and cancelled keeps `stopedAt` 0, and reads -1000 at every later instant. |
| Lifecycle.StoppedWhilePausedStaysPaused | core/src/main/java/org/apache/commons/monitoring/stopwatches/DefaultStopWatch.java:106-119 | A watch paused at 10 and stopped at 20 records 10, and still reports both stopped and paused. |
| PercentDecoding.HexValue | agent/javaagent/src/main/java/org/apache/sirona/javaagent/SironaAgent.java:159-160 | The digit reading accepts every ASCII hexadecimal digit. Each accepted character has a value below 16. Below the fullwidth block it accepts nothing else, and it never accepts '%'. `DigitValues` and `AcceptedDigitsAreTheTables` pin down the value of each digit. |
| PercentDecoding.DigitValues | agent/javaagent/src/main/java/org/apache/sirona/javaagent/SironaAgent.java:159-160 | The digit of value v reads as v. This holds in lower and upper case, in ASCII and in fullwidth form, for every v below 16. |
| PercentDecoding.AcceptedDigitsAreTheTables | agent/javaagent/src/main/java/org/apache/sirona/javaagent/SironaAgent.java:159-160 | Every accepted character is the digit of its own value in one of those four tables. With `DigitValues`, this fixes the reading of every character. |
| PercentDecoding.ReadRun | agent/javaagent/src/main/java/org/apache/sirona/javaagent/SironaAgent.java:152-167 | Reading a run of escapes either succeeds or fails. On success it consumes three characters per byte, stops before a character that is not '%', and yields the bytes of exactly the escapes it passed, with no bad escape among them. On failure it reports the first '%' without two hex digits, as `Incomplete` or `Invalid` with that escape's text. |
| PercentDecoding.ReadRunReadsEscapes | agent/javaagent/src/main/java/org/apache/sirona/javaagent/SironaAgent.java:152-167 | The converse: a maximal run of well-formed escapes is read as exactly its bytes. |
| PercentDecoding.DecodeFrom | agent/javaagent/src/main/java/org/apache/sirona/javaagent/SironaAgent.java:150-173 | The outer loop succeeds if and only if no '%' from the start index on lacks two hex digits. Otherwise it throws the exception for the first such '%'. |
| PercentDecoding.Decode | agent/javaagent/src/main/java/org/apache/sirona/javaagent/SironaAgent.java:143-175 | A path without '%' comes back unchanged. Decoding succeeds if and only if every '%' is followed by two hex digits. A failure names the first offending '%': `Incomplete` when fewer than two characters follow, `Invalid` with the three-character sequence otherwise. |
| PercentDecoding.NoPercentDecodesToItself | agent/javaagent/src/main/java/org/apache/sirona/javaagent/SironaAgent.java:169-172 | The loop copies a '%'-free text verbatim. |
| PercentDecoding.DecodeIsItsLoop | agent/javaagent/src/main/java/org/apache/sirona/javaagent/SironaAgent.java:143-174 | The early return for paths without '%' gives the same result as the loop. |
| PercentDecoding.EscapeTextReadsBack | agent/javaagent/src/main/java/org/apache/sirona/javaagent/SironaAgent.java:159-165 | A run of valid escapes, written with digits of any case or width and placed anywhere in a text, reads back as escapes whose `(d1 << 4) + d2` are the run's bytes. |
| PercentDecoding.ByteOfDigits | agent/javaagent/src/main/java/org/apache/sirona/javaagent/SironaAgent.java:159-165 | Every byte b, written as the digits of b / 16 and b % 16 in either case, is read back as `(d1 << 4) + d2` = b. |
| PercentDecoding.DecodeRenderAt | agent/javaagent/src/main/java/org/apache/sirona/javaagent/SironaAgent.java:150-173 | The loop, started at any index where the path of well-formed pieces begins, decodes it into their text. |
| PercentDecoding.DecodeRender | agent/javaagent/src/main/java/org/apache/sirona/javaagent/SironaAgent.java:143-175 | Round trip: a path made of plain characters (not '%') and runs of escapes with valid digits (any case, ASCII or fullwidth) decodes without error. Each plain character is copied in order, and each run's bytes are converted as one buffer. |
| PercentDecoding.Parse | agent/javaagent/src/main/java/org/apache/sirona/javaagent/SironaAgent.java:150-173 | A path in which every '%' starts a well-formed escape splits into well-formed pieces, one per maximal run of escapes and one per other character, that make up exactly that path. |
| PercentDecoding.DecodeReadsPieces | agent/javaagent/src/main/java/org/apache/sirona/javaagent/SironaAgent.java:143-175 | Every successful decode is covered by the round trip: its input is the path of some well-formed pieces, and its result is their decoded text. |
| PercentDecoding.DecodeRunExample | agent/javaagent/src/main/java/org/apache/sirona/javaagent/SironaAgent.java:150-171 | `a%41%4fb` (one digit in lower case) decodes to `a`, the conversion of the one buffer holding bytes 0x41 and 0x4F, then `b`. |
| PercentDecoding.DecodeIncompleteExample | agent/javaagent/src/main/java/org/apache/sirona/javaagent/SironaAgent.java:155-157 | `x%4` fails with an incomplete sequence at index 1. |
| PercentDecoding.DecodeInvalidExample | agent/javaagent/src/main/java/org/apache/sirona/javaagent/SironaAgent.java:159-164 | `%4G` fails with the invalid sequence `%4G` at index 0. |
| AgentArgs.IndexOfFrom | agent/javaagent/src/main/java/org/apache/sirona/javaagent/SironaAgent.java:179 | The search from an index finds the first occurrence at or after it, or reports that there is none. |
| AgentArgs.IndexOf | agent/javaagent/src/main/java/org/apache/sirona/javaagent/SironaAgent.java:178-179 | `indexOf(str)` finds the first occurrence. It finds none if and only if the text does not contain the pattern (the `contains` test). |
| AgentArgs.IndexOfChar | agent/javaagent/src/main/java/org/apache/sirona/javaagent/SironaAgent.java:180 | `indexOf(c, from)` finds the first index at or after `from` holding `c`, or reports that there is none. |
| AgentArgs.ExtractConfig | agent/javaagent/src/main/java/org/apache/sirona/javaagent/SironaAgent.java:177-190 | It returns `null` if and only if the arguments are `null` or do not contain the key. Otherwise the value is the text right after the first occurrence of the key, ending at a '\|' or at the end. With the empty key and arguments that start with '\|', the value is the whole argument string. In every other case it holds no '\|'. |
| AgentArgs.ExtractConfigEmptyKeyKeepsSeparator | agent/javaagent/src/main/java/org/apache/sirona/javaagent/SironaAgent.java:180-187 | With the empty key, `|x` yields `|x`: the '|' at index 0 is not taken as a separator. |
| AgentArgs.ExtractConfigCorrected | agent/javaagent/src/main/java/org/apache/sirona/javaagent/SironaAgent.java:177-190 | With the test `separator >= 0`, the value never holds a '|', for every key, empty or not. Everything else is as in `extractConfig`. |
| AgentArgs.ExtractConfigExample | agent/javaagent/src/main/java/org/apache/sirona/javaagent/SironaAgent.java:177-187 | With the key `b=`, the arguments `a=1\|b=2\|c` give `2`. |
| AgentArgs.Segments | agent/javaagent/src/main/java/org/apache/sirona/javaagent/SironaAgent.java:202 | The '|'-separated pieces of a text are free of '|', and joining them with '|' gives the text back. |
| AgentArgs.DropTrailingEmpty | agent/javaagent/src/main/java/org/apache/sirona/javaagent/SironaAgent.java:202 | It keeps a prefix of the pieces, ends with a non-empty piece (or is empty), and drops only empty ones. |
| AgentArgs.Split | agent/javaagent/src/main/java/org/apache/sirona/javaagent/SironaAgent.java:202 | `split("\\|")` on a text without '|' yields the text itself. Otherwise it yields the '|'-separated segments with the trailing empty ones removed: a prefix of the segments that ends in a non-empty piece, where every segment dropped is empty. No piece holds '|'. |
| AgentArgs.SegmentsOfJoin | agent/javaagent/src/main/java/org/apache/sirona/javaagent/SironaAgent.java:202 | Splitting the '|'-join of '|'-free pieces gives back those pieces. |
| AgentArgs.SplitOfEntries | agent/javaagent/src/main/java/org/apache/sirona/javaagent/SironaAgent.java:202 | Splitting the text of non-empty `key=value` entries gives the entries back. No trailing piece is empty, so nothing is dropped. |
| AgentArgs.Key | agent/javaagent/src/main/java/org/apache/sirona/javaagent/SironaAgent.java:207-209 | The key of a piece is a prefix of it holding no '='. |
| AgentArgs.Value | agent/javaagent/src/main/java/org/apache/sirona/javaagent/SironaAgent.java:207-214 | A piece with '=' is its key, '=', then its value, so the value may hold '='. A piece without '=' is all key, and its value is empty. |
| AgentArgs.Collect | agent/javaagent/src/main/java/org/apache/sirona/javaagent/SironaAgent.java:206-215 | The loop: the key of the last piece maps to that piece's value, because a later `put` overwrites an earlier one. |
| AgentArgs.KeyValueOfEntry | agent/javaagent/src/main/java/org/apache/sirona/javaagent/SironaAgent.java:207-211 | The text `key=value` of a parameter whose key holds no '=' reads back as that key and that value. |
| AgentArgs.CollectKeys | agent/javaagent/src/main/java/org/apache/sirona/javaagent/SironaAgent.java:206-215 | After the loop, the map's keys are exactly the earlier keys plus the keys of the pieces. |
| AgentArgs.CollectLastWins | agent/javaagent/src/main/java/org/apache/sirona/javaagent/SironaAgent.java:206-215 | The key of a piece that no later piece repeats maps to that piece's value. |
| AgentArgs.CollectKeepsOthers | agent/javaagent/src/main/java/org/apache/sirona/javaagent/SironaAgent.java:206-215 | A key that no piece has keeps the value it had before the loop. |
| AgentArgs.CollectSnoc | agent/javaagent/src/main/java/org/apache/sirona/javaagent/SironaAgent.java:206-215 | Running the loop over one more piece is the same as putting that piece into the result. |
| AgentArgs.CollectEntries | agent/javaagent/src/main/java/org/apache/sirona/javaagent/SironaAgent.java:206-215 | The loop over the texts of writable parameters builds their map, in which the last one wins. |
| AgentArgs.ExtractParameters | agent/javaagent/src/main/java/org/apache/sirona/javaagent/SironaAgent.java:197-218 | `null` or empty arguments give the empty map. Otherwise the keys are exactly the keys of the split pieces, and a key maps to the value of the last piece that has it. |
| AgentArgs.ParametersAreSeparatorFree | agent/javaagent/src/main/java/org/apache/sirona/javaagent/SironaAgent.java:202-215 | No key holds '|' or '=', and no value holds '|'. |
| AgentArgs.CollectSeparatorFree | agent/javaagent/src/main/java/org/apache/sirona/javaagent/SironaAgent.java:206-215 | The loop keeps the map free of separators when its pieces hold no '|'. |
| AgentArgs.SeparatorFreePiece | agent/javaagent/src/main/java/org/apache/sirona/javaagent/SironaAgent.java:207-213 | The key and the value of a '|'-free piece hold no '|'. |
| AgentArgs.ExtractParametersOfJoin | agent/javaagent/src/main/java/org/apache/sirona/javaagent/SironaAgent.java:197-218 | Round trip: writing parameters as `k=v\|k2=v2\|...` and parsing the text gives their map, with the last one winning for a repeated key. |
| AgentArgs.TrailingSeparatorIsDropped | agent/javaagent/src/main/java/org/apache/sirona/javaagent/SironaAgent.java:202 | `a=1\|` gives just `a -> 1`: the trailing empty piece is dropped. |
| AgentArgs.ValueMayHoldEquals | agent/javaagent/src/main/java/org/apache/sirona/javaagent/SironaAgent.java:207-211 | `k=x=y` maps `k` to `x=y`: only the first '=' separates. |
| AgentArgs.BareKeyMapsToEmpty | agent/javaagent/src/main/java/org/apache/sirona/javaagent/SironaAgent.java:212-214 | `flag` maps `flag` to the empty value. |

## Left out

- `finalize` (`DefaultStopWatch.java:173-183`) is a garbage-collector hook that only writes a warning to standard error.
- `toString` (`DefaultStopWatch.java:218-240`) only formats text for diagnostics.
- `getMonitor` (`DefaultStopWatch.java:247-250`) only returns the constructor's argument.
- `nanotime()` (`DefaultStopWatch.java:193-196`) is a clock. Every operation takes its reading as the argument `now`.
  - Single operations accept any reading, as the Java code does.
  - Only the trace lemmas require a monotonic clock.
- The `Gauge` and `Counter` implementations and their thread safety are not part of this model. Their effect is the event log in each `Step`, and concurrent use of one watch is not modelled.
- Units (`Unit.UNARY`, `Unit.NANOS`) are implied by the kind of event.
- `SironaAgent.premain`, `agentmain` and the rest of `SironaAgent` are JVM instrumentation, class loading and file I/O.
- The platform-charset conversion `out.toString()` in `decode` is a foreign call. It is the parameter `toText`, applied to the byte buffer of each run of escapes.
- PercentDecoding.HexValue: only the ASCII and fullwidth hexadecimal digits are accepted. The other Unicode decimal digits that `Character.digit(c, 16)` also accepts are not, because the model has no Unicode character database.
- Java strings are sequences of UTF-16 code units. Characters outside the Basic Multilingual Plane are treated as single `char` values rather than surrogate pairs.
- The regular-expression engine behind `String.split("\\|")` is modelled as a plain split on '|'. The split keeps Java's rules: a text without '|' is returned whole, and trailing empty pieces are dropped.
- A `null` `startStr` in `extractConfig` is not modelled. Every call passes a literal key.
- `FilteringEndpoints.java` is not part of this model: it is servlet and template plumbing.
- StopWatch.Elapsed: the contract gives the exact value only when no subtraction overflows. The wrapped value in the overflow case is computed by `Int64.Sub` but not restated in the contract.
- The trace lemmas of `Lifecycle` (`ElapsedWithinSpan`, `StopAfterPausesRecordsSpanMinusLastPause`) assume that the measured span is less than 2^63 nanoseconds (about 292 years), so no subtraction wraps.

## Findings

| source | as written | input that shows it | evidently intended | confidence | as-written member | corrected member |
|---|---|---|---|---|---|---|
| agent/javaagent/src/main/java/org/apache/sirona/javaagent/SironaAgent.java:182 | `if (separator > 0)`: a '\|' found at index 0 is not treated as the end of the value | `extractConfig("\|x", "")` returns `"\|x"`, a value that contains the separator | `separator >= 0` (`indexOf` returns -1 for "not found"), so the value never contains '\|' | not executed; the one call site (`SironaAgent.java:59`) passes the non-empty key `libs=`, so the defect is latent | AgentArgs.ExtractConfigEmptyKeyKeepsSeparator | AgentArgs.ExtractConfigCorrected |
| core/src/main/java/org/apache/commons/monitoring/stopwatches/DefaultStopWatch.java:95 | `pauseDelay = nanotime() - stopedAt` in `resume`, and the same assignment at :113 in `stop`: each pause replaces the delay of the earlier ones | start 0, pause 10, resume 20, pause 30, resume 40, stop 100: the sample is 90 | `pauseDelay += nanotime() - stopedAt`, so the sample is the active time, 80 | not executed; the field is documented as the time the probe was paused, and a stop watch with pause and resume is meant to exclude every pause | Lifecycle.SecondPauseReplacesFirst | Lifecycle.AccumulatingStopRecordsActiveTime |
