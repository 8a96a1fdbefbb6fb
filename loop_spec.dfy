/**
 * The monitor loop as a function of its environment. One outer cycle
 * probes connectivity once; a failed probe logs the uptime, invokes the
 * rebooter once, waits a grace period of `pollMin` seconds and then probes
 * every 5 seconds until a probe succeeds or the stop flag is set, after
 * which the uptime baseline is reset to the current clock reading. A
 * rebooter that raises ends the cycle at the catch-all handler. Every cycle
 * ends with a wait drawn from [pollMin, pollMax]; the draw raises, outside
 * the handler, when pollMin > pollMax, and that ends the run.
 */
module LoopSpec {
  /** The poll interval bounds, in seconds, as configured. */
  datatype Interval = Interval(pollMin: int, pollMax: int)

  /**
   * What the monitor learns from the outside world, in order:
   * `probes`: results of successive connectivity probes (a finite script,
   *   which bounds the run);
   * `rebootRaises(k)`: whether the k-th reboot attempt raises;
   * `clock(k)`: the k-th reading of the monotonic clock;
   * `jitter(k)`: the random source behind the k-th interval draw;
   * `signal(k)`: whether a stop signal has arrived by the k-th time the
   *   stop flag is consulted.
   */
  datatype Env = Env(
    probes: seq<bool>,
    rebootRaises: nat -> bool,
    clock: nat -> int,
    jitter: nat -> nat,
    signal: nat -> bool)

  /** The observable steps of the loop. */
  datatype Event =
    | Check(up: bool)               // probe at the start of a cycle
    | Lost(upFor: int)              // warning naming the uptime that ended, in seconds
    | Reboot(raised: bool)          // one call of the rebooter
    | Grace(seconds: int, cut: bool)  // interruptible wait after a reboot
    | Recheck(up: bool)             // probe in the recovery loop
    | Sleep(seconds: int)           // blind sleep in the recovery loop
    | Reset(at: int)                // uptime baseline set to a clock reading
    | Pause(seconds: int, cut: bool)  // interruptible jittered wait ending a cycle

  /** Why the run ended. */
  datatype Ending =
    | Stopped          // the stop flag was found set at the top of the loop
    | Aborted          // the interval draw raised because pollMin > pollMax
    | ScriptExhausted  // the probe script ran out (a bound of the model)

  /**
   * How far each source of environment input has been consumed: probes
   * made, reboots attempted, clock readings taken, intervals drawn and
   * times the stop flag was consulted.
   */
  datatype Cursor = Cursor(probe: nat, reboot: nat, reading: nat, draw: nat, check: nat)

  /** The monitor's fields (`lastUp`, `stop`), the input consumed and the events so far. */
  datatype State = State(lastUp: int, stop: bool, at: Cursor, trace: seq<Event>)

  /** A phase either finishes in a state or runs out of probe script. */
  datatype Step = Next(s: State) | OutOfScript(s: State)

  datatype Final = Final(outcome: Ending, s: State)

  const RECOVERY_SLEEP := 5

  function Start(lastUp: int, stop: bool): State {
    State(lastUp, stop, Cursor(0, 0, 0, 0, 0), [])
  }

  /** The stop flag is consulted: a signal that has arrived sets it; nothing clears it. */
  function Observe(env: Env, s: State): State {
    s.(stop := s.stop || env.signal(s.at.check), at := s.at.(check := s.at.check + 1))
  }

  /** `randint(lo, hi)` for lo <= hi, driven by the random source `j`. */
  function RandInt(lo: int, hi: int, j: nat): (w: int)
    requires lo <= hi
    ensures lo <= w <= hi
  {
    lo + j % (hi - lo + 1)
  }

  /** Every value of the range is drawn by some random source. */
  lemma RandIntCovers(lo: int, hi: int, w: int)
    requires lo <= w <= hi
    ensures RandInt(lo, hi, w - lo) == w
  {
    assert (w - lo) % (hi - lo + 1) == w - lo;
  }

  /** Appends `e` to the trace. */
  function Emit(s: State, e: Event): State {
    s.(trace := s.trace + [e])
  }

  /**
   * The recovery loop, entered just after the stop flag was consulted:
   * it ends when the flag is set or a probe succeeds, and sleeps after
   * every failed probe.
   */
  function Recover(env: Env, s: State): (r: Step)
    decreases |env.probes| - s.at.probe
    ensures s.at.probe <= r.s.at.probe && (s.at.probe <= |env.probes| ==> r.s.at.probe <= |env.probes|)
    ensures r.s.lastUp == s.lastUp
    ensures r.s.at.reboot == s.at.reboot && r.s.at.reading == s.at.reading && r.s.at.draw == s.at.draw
    ensures s.stop ==> r.s.stop
    ensures r.OutOfScript? ==> r.s.at.probe >= |env.probes| && !r.s.stop
  {
    if s.stop then Next(s)
    else if s.at.probe >= |env.probes| then OutOfScript(s)
    else
      var up := env.probes[s.at.probe];
      var s' := Emit(s.(at := s.at.(probe := s.at.probe + 1)), Recheck(up));
      if up then Next(s')
      else Recover(env, Observe(env, Emit(s', Sleep(RECOVERY_SLEEP))))
  }

  /**
   * One pass through the body of the outer loop's handler, entered with
   * the stop flag found clear.
   */
  function Cycle(b: Interval, env: Env, s: State): (r: Step)
    ensures s.at.probe <= r.s.at.probe && (s.at.probe <= |env.probes| ==> r.s.at.probe <= |env.probes|)
    ensures r.Next? ==> s.at.probe < r.s.at.probe
    ensures r.OutOfScript? ==> r.s.at.probe >= |env.probes| && (s.stop || !r.s.stop)
    ensures r.s.at.draw == s.at.draw
    ensures s.stop ==> r.s.stop
  {
    if s.at.probe >= |env.probes| then OutOfScript(s)
    else
      var up := env.probes[s.at.probe];
      var s1 := Emit(s.(at := s.at.(probe := s.at.probe + 1)), Check(up));
      if up then Next(s1)
      else
        var now := env.clock(s1.at.reading);
        var s2 := Emit(s1.(at := s1.at.(reading := s1.at.reading + 1)), Lost(now - s1.lastUp));
        var raised := env.rebootRaises(s2.at.reboot);
        var s3 := Emit(s2.(at := s2.at.(reboot := s2.at.reboot + 1)), Reboot(raised));
        if raised then Next(s3)
        else
          var s4 := Observe(env, s3);
          var s5 := Emit(s4, Grace(b.pollMin, s4.stop));
          match Recover(env, Observe(env, s5))
          case OutOfScript(x) => OutOfScript(x)
          case Next(x) =>
            var t := env.clock(x.at.reading);
            Next(Emit(x.(lastUp := t, at := x.at.(reading := x.at.reading + 1)), Reset(t)))
  }

  /** The jittered wait that ends every cycle. */
  function Wait(b: Interval, env: Env, s: State): (r: State)
    requires b.pollMin <= b.pollMax
    ensures |r.trace| == |s.trace| + 1 && r.trace[..|s.trace|] == s.trace
    ensures var e := r.trace[|s.trace|]; e.Pause? && b.pollMin <= e.seconds <= b.pollMax
    ensures r.lastUp == s.lastUp && r.at.probe == s.at.probe
  {
    var w := RandInt(b.pollMin, b.pollMax, env.jitter(s.at.draw));
    var s' := Observe(env, s.(at := s.at.(draw := s.at.draw + 1)));
    Emit(s', Pause(w, s'.stop))
  }

  /** The outer loop, entered just after the stop flag was consulted. */
  function Continue(b: Interval, env: Env, s: State): (r: Final)
    decreases |env.probes| - s.at.probe
    ensures s.stop ==> r == Final(Stopped, s)
    ensures r.outcome == Stopped ==> r.s.stop
    ensures r.outcome == Aborted ==> b.pollMax < b.pollMin
    ensures r.outcome == ScriptExhausted ==> r.s.at.probe >= |env.probes| && !r.s.stop
  {
    if s.stop then Final(Stopped, s)
    else match Cycle(b, env, s)
      case OutOfScript(x) => Final(ScriptExhausted, x)
      case Next(x) =>
        if b.pollMax < b.pollMin then Final(Aborted, x)
        else Continue(b, env, Observe(env, Wait(b, env, x)))
  }

  /** A whole run of the monitor from the given baseline and stop flag. */
  function Run(b: Interval, env: Env, lastUp: int, stop: bool): (r: Final)
    ensures stop ==> r.outcome == Stopped && r.s.trace == []
    ensures r.outcome == Stopped ==> r.s.stop
    ensures r.outcome == Aborted ==> b.pollMax < b.pollMin
  {
    Continue(b, env, Observe(env, Start(lastUp, stop)))
  }
}
