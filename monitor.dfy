/**
 * The monitoring service: the uptime baseline, the stop flag that the
 * signal handler sets, and the loop that probes, reboots and waits.
 * Every input from the outside world is read from an `Env`; the `Cursor`
 * passed along says how much of each input has been consumed.
 */
module Monitoring {
  import opened LoopSpec
  import Configuration

  class Monitor {
    const cfg: Configuration.Config
    /** Monotonic clock reading since which the connection has been up. */
    var lastUp: int
    /** Set by the signal handler; never cleared. */
    var stop: bool

    /** Creates the monitor with the clock reading taken at construction. */
    constructor (cfg: Configuration.Config, now: int)
      ensures this.cfg == cfg && lastUp == now && !stop
    {
      this.cfg := cfg;
      lastUp := now;
      stop := false;
    }

    /** The SIGINT/SIGTERM handler: requests shutdown. */
    method OnExit()
      modifies this
      ensures stop && lastUp == old(lastUp)
    {
      stop := true;
    }

    /**
     * Consults the stop flag (the loop conditions and the interruptible
     * waits do): a signal that has arrived by now runs the handler first.
     */
    method StopRequested(env: Env, at: Cursor) returns (stopped: bool, at': Cursor)
      modifies this
      ensures stop == (old(stop) || env.signal(at.check)) && lastUp == old(lastUp)
      ensures stopped == stop && at' == at.(check := at.check + 1)
    {
      if env.signal(at.check) {
        OnExit();
      }
      stopped, at' := stop, at.(check := at.check + 1);
    }

    /**
     * The recovery loop after a reboot: probes until a probe succeeds or
     * the stop flag is set, with a blind sleep after every failed probe.
     * Entered just after the stop flag was consulted. Ends as the
     * `Recover` phase does; `exhausted` when the probe script ran out.
     */
    method AwaitReconnect(env: Env, at0: Cursor, trace0: seq<Event>)
      returns (exhausted: bool, at: Cursor, trace: seq<Event>)
      requires at0.probe <= |env.probes|
      modifies this
      ensures at.probe <= |env.probes|
      ensures var r := Recover(env, State(old(lastUp), old(stop), at0, trace0));
        exhausted == r.OutOfScript? && r.s == State(lastUp, stop, at, trace)
    {
      at, trace := at0, trace0;
      ghost var rec := Recover(env, State(lastUp, stop, at, trace));
      while !stop
        invariant at.probe <= |env.probes|
        invariant Recover(env, State(lastUp, stop, at, trace)) == rec
        decreases |env.probes| - at.probe
      {
        if at.probe == |env.probes| {
          return true, at, trace;
        }
        var back := env.probes[at.probe];
        at := at.(probe := at.probe + 1);
        trace := trace + [Recheck(back)];
        if back {
          break;
        }
        trace := trace + [Sleep(RECOVERY_SLEEP)];
        var stopped;
        stopped, at := StopRequested(env, at);
      }
      exhausted := false;
    }

    /**
     * One pass through the handler-wrapped body of the outer loop: probe
     * once; on failure log the uptime, reboot, wait the grace period, run
     * the recovery loop and reset the uptime baseline. A reboot that raises
     * skips the rest, as the catch-all handler does. Ends as the `Cycle`
     * phase does; `exhausted` when the probe script ran out.
     */
    method MonitorCycle(env: Env, at0: Cursor, trace0: seq<Event>)
      returns (exhausted: bool, at: Cursor, trace: seq<Event>)
      requires at0.probe <= |env.probes|
      modifies this
      ensures at.probe <= |env.probes|
      ensures var r := Cycle(Interval(cfg.pollMin, cfg.pollMax), env, State(old(lastUp), old(stop), at0, trace0));
        exhausted == r.OutOfScript? && r.s == State(lastUp, stop, at, trace)
    {
      at, trace := at0, trace0;
      ghost var b, s0 := Interval(cfg.pollMin, cfg.pollMax), State(lastUp, stop, at, trace);
      if at.probe == |env.probes| {
        return true, at, trace;
      }
      var up := env.probes[at.probe];
      at := at.(probe := at.probe + 1);
      trace := trace + [Check(up)];
      if up {
        return false, at, trace;
      }
      var now := env.clock(at.reading);
      at := at.(reading := at.reading + 1);
      trace := trace + [Lost(now - lastUp)];
      var raised := env.rebootRaises(at.reboot);
      at := at.(reboot := at.reboot + 1);
      trace := trace + [Reboot(raised)];
      if raised {
        return false, at, trace;
      }
      ghost var s3 := State(lastUp, stop, at, trace);
      var cut;
      cut, at := StopRequested(env, at);
      trace := trace + [Grace(cfg.pollMin, cut)];
      // the recovery loop's condition
      var stopped;
      stopped, at := StopRequested(env, at);
      ghost var s6 := State(lastUp, stop, at, trace);
      assert s6 == Observe(env, Emit(Observe(env, s3), Grace(b.pollMin, Observe(env, s3).stop)));
      exhausted, at, trace := AwaitReconnect(env, at, trace);
      ghost var x := State(lastUp, stop, at, trace);
      if exhausted {
        assert Recover(env, s6) == OutOfScript(x);
        return;
      }
      assert Recover(env, s6) == Next(x);
      var t := env.clock(at.reading);
      at := at.(reading := at.reading + 1);
      lastUp := t;
      trace := trace + [Reset(t)];
    }

    /**
     * The monitor loop, run against the environment `env`. It ends with
     * the outcome, events, uptime baseline and stop flag that
     * `LoopSpec.Run` gives for the same interval, environment and
     * starting fields.
     */
    method Run(env: Env) returns (outcome: Ending, trace: seq<Event>)
      modifies this
      ensures var f := LoopSpec.Run(Interval(cfg.pollMin, cfg.pollMax), env, old(lastUp), old(stop));
        outcome == f.outcome && trace == f.s.trace && lastUp == f.s.lastUp && stop == f.s.stop
    {
      var b := Interval(cfg.pollMin, cfg.pollMax);
      ghost var final := LoopSpec.Run(b, env, lastUp, stop);
      var at := Cursor(0, 0, 0, 0, 0);
      trace := [];
      var stopped;
      stopped, at := StopRequested(env, at);
      while !stopped
        invariant stopped == stop && at.probe <= |env.probes|
        invariant Continue(b, env, State(lastUp, stop, at, trace)) == final
        decreases |env.probes| - at.probe
      {
        ghost var s0 := State(lastUp, stop, at, trace);
        var exhausted;
        exhausted, at, trace := MonitorCycle(env, at, trace);
        ghost var x := State(lastUp, stop, at, trace);
        if exhausted {
          assert Cycle(b, env, s0) == OutOfScript(x);
          return ScriptExhausted, trace;
        }
        assert Cycle(b, env, s0) == Next(x);
        // the interval draw stands outside the handler
        if cfg.pollMax < cfg.pollMin {
          return Aborted, trace;
        }
        var wait := RandInt(cfg.pollMin, cfg.pollMax, env.jitter(at.draw));
        at := at.(draw := at.draw + 1);
        var cut;
        cut, at := StopRequested(env, at);
        trace := trace + [Pause(wait, cut)];
        assert State(lastUp, stop, at, trace) == Wait(b, env, x);
        stopped, at := StopRequested(env, at);
        assert State(lastUp, stop, at, trace) == Observe(env, Wait(b, env, x));
      }
      outcome := Stopped;
    }
  }
}
