# deco5g monitor, modelled in Dafny

`deco5g_monitor.py` keeps a home router reachable. The monitor probes an
outside host once per cycle. When the probe fails it does four things in order:
- logs how long the connection had been up;
- asks the rebooter to restart the router through its web interface;
- waits a grace period of `poll_min` seconds;
- probes every 5 seconds until the connection is back or a shutdown signal arrives.

It then resets its uptime baseline to the current clock reading. A catch-all
handler wraps every cycle, so a reboot that raises is logged and the loop
goes on. Each cycle ends with an interruptible wait of a random whole number
of seconds in `[poll_min, poll_max]`. SIGINT and SIGTERM set a stop flag that
the loop and the waits consult. At start-up the router password is read
from a credentials file: it is the first whitespace-separated token of the
file's stripped contents.

The project has these parts:

- `uptime.dfy` (module `Uptime`): the uptime text of the "connection lost"
  warning. The elapsed seconds are truncated toward zero. They are normalised
  as a `timedelta` does it, with floor division into days and a remainder
  below a day. The remainder is then split into hours, minutes and seconds.
- `credentials.dfy` (module `Configuration`): Python's `str.strip()` and
  `str.split()` over Python's whitespace set, the password rule, and the
  `Config` class whose `password` field `LoadPassword` assigns.
- `loop_spec.dfy` (module `LoopSpec`): the monitor loop as functions of an
  environment `Env`. The environment holds the probe results, whether each
  reboot raises, the clock readings, the random source behind each interval
  draw, and whether a stop signal has arrived by each time the flag is
  consulted. A run yields an outcome, the final `lastUp` and `stop` fields,
  and the trace of observable `Event`s.
- `monitor.dfy` (module `Monitoring`): the `Monitor` class with the fields
  `lastUp` and `stop`. Its `Run` method holds the outer loop and calls
  `MonitorCycle` for each cycle; the recovery loop is `AwaitReconnect`.
  Their loop invariants and contracts tie `Run` to `LoopSpec.Run`.
- `loop_properties.dfy` (module `LoopProperties`): what the loop
  guarantees, proved about `LoopSpec`, plus two worked runs.
- `wrappers.dfy` (module `Wrappers`): `Option`, `Result`, `Outcome`.

## Model

| member | source | states |
|---|---|---|
| `Uptime.Truncate` | deco5g_monitor.py:136 | `int(seconds)` rounds toward zero: the result is within one second of the input, on the same side of zero |
| `Uptime.Components` | deco5g_monitor.py:136-139 | the days, hours, minutes and seconds add back to the truncated input; hours lie in [0,24) and minutes and seconds in [0,60); a non-negative input gives non-negative days |
| `Uptime.ComponentsUnique` | deco5g_monitor.py:137-139 | any normalised decomposition that adds back to the truncated input is the one computed, so the components are determined by the total |
| `Uptime.NatToString` | deco5g_monitor.py:140 | the decimal numeral of a number is non-empty, is all digits and has no leading zero |
| `Uptime.DecimalRoundTrip` | deco5g_monitor.py:140 | reading back a number's decimal numeral gives the number |
| `Uptime.IntToString` | deco5g_monitor.py:140 | a negative number is written as '-' and the numeral of its magnitude, any other number as its numeral |
| `Uptime.FormatUptime` | deco5g_monitor.py:134-140 | the text logged for an elapsed time; its contract is stated by `FormatUptimeReadsBack` (layout, read-back, total) and `FormatNinetyThousandSixtyOne` (the worked value) |
| `Uptime.FormatNinetyThousandSixtyOne` | deco5g_monitor.py:134-140 | 90061 seconds decompose into 1 day, 1 hour, 1 minute, 1 second and are formatted "1d 1h 1m 1s" |
| `Uptime.FormatUptimeReadsBack` | deco5g_monitor.py:134-140 | the text is "<d>d <h>h <m>m <s>s"; the hours, minutes and seconds read back as their values, and the values add back to the truncated input |
| `Configuration.StripLeading` | deco5g_monitor.py:50 | removes exactly a whitespace prefix, and what remains is empty or starts with a non-whitespace character |
| `Configuration.StripTrailing` | deco5g_monitor.py:50 | removes exactly a whitespace suffix, and what remains is empty or ends with a non-whitespace character |
| `Configuration.Strip` | deco5g_monitor.py:50 | `str.strip()` gives a text no longer than the input that neither starts nor ends with whitespace; `StripEmptyIffBlank` states when it is empty and `StripIsSlice` where it comes from |
| `Configuration.StripIsSlice` | deco5g_monitor.py:50 | `str.strip()` removes whitespace only, and only at the ends: the result is the slice of the input that follows its leading whitespace, and only whitespace follows it |
| `Configuration.Word` | deco5g_monitor.py:50 | the longest prefix without whitespace |
| `Configuration.Split` | deco5g_monitor.py:50 | every token of `str.split()` is non-empty and holds no whitespace |
| `Configuration.SplitKeepsNonSpace` | deco5g_monitor.py:50 | joined together, the tokens are exactly the input's non-whitespace characters, in order |
| `Configuration.SplitEmptyIffBlank` | deco5g_monitor.py:50-51 | there are no tokens exactly when the text is all whitespace |
| `Configuration.StripEmptyIffBlank` | deco5g_monitor.py:50 | the stripped text is empty exactly when the text is all whitespace |
| `Configuration.PasswordOutcomes` | deco5g_monitor.py:46-53 | three outcomes: FileNotFound exactly when the file is missing; NoPassword exactly when its contents are empty or whitespace only; otherwise the password is non-empty, holds no whitespace, and is a maximal whitespace-free prefix of the stripped contents |
| `Configuration.PasswordIn` | deco5g_monitor.py:48-53 | a password is only found in an existing file, and it is non-empty and free of whitespace; `PasswordOutcomes` states all three outcomes |
| `Configuration.Config.Default` | deco5g_monitor.py:39-40 | the default poll interval is 10 to 60 seconds, with no password yet |
| `Configuration.Config.constructor` | deco5g_monitor.py:33-44 | the poll bounds are as given and no password is set yet |
| `Configuration.Config.LoadPassword` | deco5g_monitor.py:46-53 | on success the field holds the first token; on either error it is left unchanged and the error is returned |
| `LoopSpec.RandInt` | deco5g_monitor.py:167 | `randint(lo, hi)` lies in [lo, hi], bounds included |
| `LoopSpec.RandIntCovers` | deco5g_monitor.py:167 | every value of [lo, hi] is drawn by some random source |
| `LoopSpec.Observe` | deco5g_monitor.py:145 | one consultation of the flag (loop tests at :145 and :153, waits at :151 and :169): an arrived signal sets it, nothing clears it; `Monitoring.Monitor.StopRequested` is proved to agree with it and `LoopProperties.StopIsFinal` states its consequences |
| `LoopSpec.Recover` | deco5g_monitor.py:153-156 | the recovery loop only consumes probes and stop checks: the baseline, reboots, clock and draws are untouched, the flag stays set once set, and running out of probe script leaves the flag clear |
| `LoopSpec.Cycle` | deco5g_monitor.py:146-165 | a completed cycle consumes at least one probe and no interval draw, and a set flag stays set |
| `LoopSpec.Continue` | deco5g_monitor.py:145-171 | a run entered with the flag set stops at once; Stopped means the flag is set; Aborted happens only when `poll_min > poll_max` |
| `LoopSpec.Wait` | deco5g_monitor.py:167-169 | the end-of-cycle wait appends one jittered wait within [poll_min, poll_max] and leaves the baseline and probes untouched |
| `LoopSpec.Run` | deco5g_monitor.py:142-171 | a run started with the flag set stops with no events; Stopped means the flag is set; Aborted happens only when `poll_min > poll_max`; the `LoopProperties` lemmas state the rest |
| `LoopProperties.RechecksEvents` | deco5g_monitor.py:153-156 | a recovery loop's events alternate failed probe and 5-second sleep, followed by one successful probe when it recovered |
| `LoopProperties.RecoverShape` | deco5g_monitor.py:153-156 | the recovery loop consumes probes up to and including the first success unless the flag ends it first; every consumed probe but a final success failed; the trace gains one 5-second sleep per failed probe; `RecoverHeedsFlag` states when the flag ends it |
| `LoopProperties.RecoverHeedsFlag` | deco5g_monitor.py:153-156 | the recovery loop returns at once when the flag is already set; every stop check it makes but the last found no signal; and when it ends with the flag newly set, its last check found the signal, so a signal arriving during the 5-second sleep ends the loop before the next probe |
| `LoopProperties.CycleHealthy` | deco5g_monitor.py:147 | a successful probe adds only that probe: no reboot, and the baseline, flag and other inputs are untouched |
| `LoopProperties.CycleRaised` | deco5g_monitor.py:147-165 | a failed probe whose reboot raises logs the uptime and calls the rebooter once; the grace wait, recovery loop and reset are skipped and the baseline is unchanged |
| `LoopProperties.CycleRebooted` | deco5g_monitor.py:147-159 | a failed probe whose reboot returns gives one reboot, the grace wait, the recovery loop's events, and a reset of the baseline to a fresh clock reading; a flag set during the grace wait skips every recovery probe but not the reset |
| `LoopProperties.CycleEvents` | deco5g_monitor.py:146-159 | a cycle extends the trace, starts with its probe, holds no later outer probe or jittered wait, and reports the uptime measured from the baseline at its start |
| `LoopProperties.CycleBaseline` | deco5g_monitor.py:158 | a cycle changes the baseline only through one final Reset to a clock reading taken in the cycle; otherwise it holds no Reset |
| `LoopProperties.CycleCuts` | deco5g_monitor.py:151-153 | once a wait in a cycle is cut short by the flag, the flag stays set and nothing more is probed |
| `LoopProperties.WaitStep` | deco5g_monitor.py:167-169 | the end-of-cycle wait appends one wait drawn by `randint` and leaves the baseline, probes, clock and reboots untouched |
| `LoopProperties.ContinueExtends` | deco5g_monitor.py:145-169 | the loop only appends to the trace |
| `LoopProperties.PausesWithinInterval` | deco5g_monitor.py:167-169 | every jittered wait of a run lies in [poll_min, poll_max] |
| `LoopProperties.InvertedIntervalAborts` | deco5g_monitor.py:164-167 | a valid interval never aborts; with `poll_min > poll_max` the run never waits the jittered interval, probes at the top of the loop at most once, and ends Aborted whenever its first cycle completes |
| `LoopProperties.BaselineIsLatestReset` | deco5g_monitor.py:158 | at the end of a run the baseline is the value of the latest Reset, or the initial one when there is none |
| `LoopProperties.AttemptsCount` | deco5g_monitor.py:154-156 | `n` failed recovery probes come with exactly `n` sleeps and no other event |
| `LoopProperties.RebootsMatchFailedProbes` | deco5g_monitor.py:147-156 | over a run, the calls of the rebooter equal the failed outer probes and the reboot counter, and the 5-second sleeps equal the failed recovery probes |
| `LoopProperties.LastUpNeverDecreases` | deco5g_monitor.py:148-158 | under a monotone clock, the baseline never decreases, successive Resets never go backwards, and every reported uptime is non-negative, and so are its formatted days |
| `LoopProperties.StopIsFinal` | deco5g_monitor.py:145-169 | after a wait the flag cut short, nothing more is probed and the flag is still set at the end; the run ends Stopped unless the interval draw aborts it; a flag set before the loop ends the run at once with no events |
| `LoopProperties.RaisedRebootStillWaits` | deco5g_monitor.py:150-169 | after a reboot that raises, the next event is the jittered wait |
| `LoopProperties.FailFailSucceed` | deco5g_monitor.py:147-169 | the probe script [fail, fail, succeed] gives one reboot, one failed recovery probe followed by one sleep, a successful probe, a reset to the second clock reading, and the jittered wait |
| `LoopProperties.StopDuringGraceStillResets` | deco5g_monitor.py:151-158 | a stop signal during the grace wait skips the recovery probes, but the baseline is still reset, and the run then stops |
| `Monitoring.Monitor.constructor` | deco5g_monitor.py:113-118 | the baseline is the clock reading at construction and the flag is clear |
| `Monitoring.Monitor.OnExit` | deco5g_monitor.py:120-122 | the signal handler sets the flag and touches nothing else |
| `Monitoring.Monitor.StopRequested` | deco5g_monitor.py:145 | consulting the flag first runs the handler for a signal that has arrived; the flag is never cleared |
| `Monitoring.Monitor.AwaitReconnect` | deco5g_monitor.py:153-156 | the recovery `while` loop with its `break` ends in the fields, inputs consumed and trace that `LoopSpec.Recover` gives |
| `Monitoring.Monitor.MonitorCycle` | deco5g_monitor.py:146-165 | one handler-wrapped cycle ends in the fields, inputs consumed and trace that `LoopSpec.Cycle` gives |
| `Monitoring.Monitor.Run` | deco5g_monitor.py:142-171 | the outer loop ends with the outcome, trace, baseline and flag of `LoopSpec.Run`, so every property above holds of it |

## Left out

- `RouterRebooter.reboot` (Selenium driving the router's web page) is not part of this model: a reboot either returns or raises, as `Env.rebootRaises` says.
- `Monitor._is_connected` (DNS lookup and TCP connect) is not part of this model: its results are the finite script `Env.probes`. A probe exception other than `OSError` is not modelled.
- Running out of probe script ends a run with `ScriptExhausted`. This bounds the model, not the program, which loops until stopped.
- `time.monotonic` is an integer clock read in order (`Env.clock`). Floating-point seconds are modelled only in the `Uptime` module, as a `real` truncated toward zero. The `OverflowError` that `timedelta` raises beyond 999999999 days is not modelled.
- `random.randint` is `lo + j % (hi - lo + 1)` for a random source `j`; `RandIntCovers` shows that every value of the range is reachable this way.
- Signals arrive as `Env.signal(k)`, indexed by the k-th time the flag is consulted (loop tests and interruptible waits). The asynchronous timing and the wall-clock length of waits are not modelled; a wait is an event that records its length and whether the flag cut it short.
- Logging is not modelled, except that the "connection lost" warning is the event `Lost` carrying the uptime in seconds that `FormatUptime` formats. `argparse`, `main`, `logging.basicConfig` and the `Path.exists`/`read_text` calls are not modelled: the credentials file is an `Option<string>` input.
- The catch-all handler sees only one failure in the model: a reboot that raises. The uptime formatting and the logging calls never raise here.
- The log line at deco5g_monitor.py:159 says the router is back online, yet the reset at :158 also runs when the recovery loop ends because the flag is set. The model follows the code: the baseline is reset whenever the recovery loop ends (`StopDuringGraceStillResets`).
- The recovery sleep at deco5g_monitor.py:156 is a blind `time.sleep(5)`, unlike the interruptible waits at :151 and :169. The model follows it: the flag cannot cut that sleep short, and it is consulted only at the loop test at :153.
