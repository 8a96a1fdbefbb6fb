/**
 * What the monitor loop guarantees, proved about the functional model in
 * LoopSpec: the shape of one recovery loop and of one outer cycle, and
 * facts about whole runs (wait bounds, the inverted interval, the uptime
 * baseline, the stop flag), with two worked runs.
 */
module LoopProperties {
  import opened Uptime
  import opened LoopSpec

  /** `n` failed recovery probes, each followed by the blind sleep. */
  function Attempts(n: nat): (t: seq<Event>)
    ensures |t| == 2 * n
  {
    if n == 0 then [] else [Recheck(false), Sleep(RECOVERY_SLEEP)] + Attempts(n - 1)
  }

  /** The events of a recovery loop: the failed probes, then the successful one if there was one. */
  function Rechecks(failures: nat, recovered: bool): seq<Event> {
    Attempts(failures) + (if recovered then [Recheck(true)] else [])
  }

  /** Whether the event is a wait that the stop flag cut short. */
  predicate IsCut(e: Event) {
    match e
    case Grace(_, cut) => cut
    case Pause(_, cut) => cut
    case _ => false
  }

  /** Whether the event is a connectivity probe. */
  predicate IsProbe(e: Event) {
    e.Check? || e.Recheck?
  }

  /** The failed probes and sleeps alternate, a failed probe first. */
  lemma {:induction false} AttemptsAlternate(n: nat)
    ensures forall i | 0 <= i < 2 * n ::
      Attempts(n)[i] == if i % 2 == 0 then Recheck(false) else Sleep(RECOVERY_SLEEP)
  {
    if n > 0 {
      AttemptsAlternate(n - 1);
      var t := Attempts(n);
      assert t == [Recheck(false), Sleep(RECOVERY_SLEEP)] + Attempts(n - 1);
      forall i | 2 <= i < 2 * n
        ensures t[i] == if i % 2 == 0 then Recheck(false) else Sleep(RECOVERY_SLEEP)
      {
        assert t[i] == Attempts(n - 1)[i - 2];
      }
    }
  }

  /** A recovery loop only probes and sleeps; only its last event can be a successful probe. */
  lemma RechecksEvents(failures: nat, recovered: bool)
    ensures var t := Rechecks(failures, recovered);
      && |t| == 2 * failures + (if recovered then 1 else 0)
      && forall i | 0 <= i < |t| ::
           t[i] == (if i == 2 * failures then Recheck(true)
                    else if i % 2 == 0 then Recheck(false)
                    else Sleep(RECOVERY_SLEEP))
  {
    AttemptsAlternate(failures);
  }

  /** One more failed probe and its sleep in front of a recovery loop's events. */
  lemma RechecksStep(pre: seq<Event>, failures: nat, recovered: bool)
    ensures pre + [Recheck(false), Sleep(RECOVERY_SLEEP)] + Rechecks(failures, recovered) == pre + Rechecks(failures + 1, recovered)
  {
    assert Attempts(failures + 1) == [Recheck(false), Sleep(RECOVERY_SLEEP)] + Attempts(failures);
  }

  /**
   * One recovery loop: it consumes probes until one succeeds (`recovered`)
   * or the stop flag is found set; each failed probe is followed by exactly
   * one 5-second sleep, so the sleeps equal the failed probes.
   */
  lemma {:induction false} RecoverShape(env: Env, s: State)
    requires s.at.probe <= |env.probes|
    ensures var r := Recover(env, s);
      var recovered := r.Next? && !r.s.stop;
      && s.at.probe + (if recovered then 1 else 0) <= r.s.at.probe
      && r.s.trace == s.trace + Rechecks(r.s.at.probe - s.at.probe - (if recovered then 1 else 0), recovered)
      && (forall j | s.at.probe <= j < r.s.at.probe :: env.probes[j] == (recovered && j == r.s.at.probe - 1))
    decreases |env.probes| - s.at.probe
  {
    var r := Recover(env, s);
    if s.stop || s.at.probe >= |env.probes| {
      assert r.s == s;
      assert Rechecks(0, false) == [];
    } else {
      var up := env.probes[s.at.probe];
      var s' := Emit(s.(at := s.at.(probe := s.at.probe + 1)), Recheck(up));
      if up {
        assert r == Next(s');
        assert Rechecks(0, true) == [Recheck(true)];
      } else {
        var s'' := Observe(env, Emit(s', Sleep(RECOVERY_SLEEP)));
        assert r == Recover(env, s'');
        RecoverShape(env, s'');
        var recovered := r.Next? && !r.s.stop;
        var k := r.s.at.probe - s''.at.probe - (if recovered then 1 else 0);
        assert s''.trace == s.trace + [Recheck(false), Sleep(RECOVERY_SLEEP)];
        RechecksStep(s.trace, k, recovered);
      }
    }
  }

  /**
   * The recovery loop heeds the stop flag: it returns at once when the
   * flag is already set, every flag check but its last found no signal,
   * and a loop that ends with the flag newly set ends because its last
   * check found the signal, so no probe follows that check.
   */
  lemma {:induction false} RecoverHeedsFlag(env: Env, s: State)
    ensures var r := Recover(env, s);
      && (s.stop ==> r.s == s)
      && s.at.check <= r.s.at.check
      && (forall k | s.at.check <= k < r.s.at.check - 1 :: !env.signal(k))
      && (r.Next? && r.s.stop && !s.stop ==> s.at.check < r.s.at.check && env.signal(r.s.at.check - 1))
    decreases |env.probes| - s.at.probe
  {
    if !s.stop && s.at.probe < |env.probes| && !env.probes[s.at.probe] {
      var s' := Emit(s.(at := s.at.(probe := s.at.probe + 1)), Recheck(false));
      var s'' := Observe(env, Emit(s', Sleep(RECOVERY_SLEEP)));
      assert Recover(env, s) == Recover(env, s'');
      RecoverHeedsFlag(env, s'');
    }
  }

  /** A cycle whose probe succeeds does nothing else. */
  lemma CycleHealthy(b: Interval, env: Env, s: State)
    requires s.at.probe < |env.probes| && env.probes[s.at.probe]
    ensures var r := Cycle(b, env, s);
      && r.Next? && r.s.trace == s.trace + [Check(true)]
      && r.s.lastUp == s.lastUp && r.s.stop == s.stop
      && r.s.at == s.at.(probe := s.at.probe + 1)
  {
  }

  /**
   * A failed probe whose reboot raises: the uptime is reported, the
   * rebooter is called once, and the cycle ends at the catch-all handler
   * with the baseline and the stop flag untouched.
   */
  lemma CycleRaised(b: Interval, env: Env, s: State)
    requires s.at.probe < |env.probes| && !env.probes[s.at.probe] && env.rebootRaises(s.at.reboot)
    ensures var r := Cycle(b, env, s);
      && r.Next?
      && r.s.trace == s.trace + [Check(false), Lost(env.clock(s.at.reading) - s.lastUp), Reboot(true)]
      && r.s.lastUp == s.lastUp && r.s.stop == s.stop
      && r.s.at == s.at.(probe := s.at.probe + 1, reading := s.at.reading + 1, reboot := s.at.reboot + 1)
  {
  }

  /**
   * A failed probe whose reboot returns: the uptime is reported, the
   * rebooter is called once, the grace period is waited, the recovery loop
   * runs, and the baseline is reset to a fresh clock reading unless the
   * probe script ran out. A stop flag set by the end of the grace period
   * skips the recovery probes but not the reset.
   */
  lemma CycleRebooted(b: Interval, env: Env, s: State)
    requires s.at.probe < |env.probes| && !env.probes[s.at.probe] && !env.rebootRaises(s.at.reboot)
    ensures var r := Cycle(b, env, s);
      var cut := s.stop || env.signal(s.at.check);
      var recovered := r.Next? && !r.s.stop;
      && r.s.at.reboot == s.at.reboot + 1
      && s.at.probe + 1 + (if recovered then 1 else 0) <= r.s.at.probe
      && r.s.trace == s.trace + [Check(false), Lost(env.clock(s.at.reading) - s.lastUp), Reboot(false), Grace(b.pollMin, cut)]
           + Rechecks(r.s.at.probe - s.at.probe - 1 - (if recovered then 1 else 0), recovered)
           + (if r.Next? then [Reset(r.s.lastUp)] else [])
      && (r.Next? ==> r.s.lastUp == env.clock(s.at.reading + 1) && r.s.at.reading == s.at.reading + 2)
      && (r.OutOfScript? ==> r.s.lastUp == s.lastUp && r.s.at.reading == s.at.reading + 1)
      && (cut ==> r.Next? && r.s.stop && r.s.at.probe == s.at.probe + 1)
  {
    RebootedTrace(b, env, s);
    RebootedFields(b, env, s);
  }

  /** The events of a rebooted cycle and its reboot count. */
  lemma RebootedTrace(b: Interval, env: Env, s: State)
    requires s.at.probe < |env.probes| && !env.probes[s.at.probe] && !env.rebootRaises(s.at.reboot)
    ensures var r := Cycle(b, env, s);
      var cut := s.stop || env.signal(s.at.check);
      var recovered := r.Next? && !r.s.stop;
      && r.s.at.reboot == s.at.reboot + 1
      && s.at.probe + 1 + (if recovered then 1 else 0) <= r.s.at.probe
      && r.s.trace == s.trace + [Check(false), Lost(env.clock(s.at.reading) - s.lastUp), Reboot(false), Grace(b.pollMin, cut)]
           + Rechecks(r.s.at.probe - s.at.probe - 1 - (if recovered then 1 else 0), recovered)
           + (if r.Next? then [Reset(r.s.lastUp)] else [])
  {
    RebootedUnfold(b, env, s);
    RecoverShape(env, AfterGrace(b, env, s));
  }

  /** The state of a rebooted cycle when its recovery loop starts. */
  function AfterGrace(b: Interval, env: Env, s: State): State {
    var s1 := Emit(s.(at := s.at.(probe := s.at.probe + 1)), Check(false));
    var s2 := Emit(s1.(at := s1.at.(reading := s1.at.reading + 1)), Lost(env.clock(s.at.reading) - s.lastUp));
    var s3 := Emit(s2.(at := s2.at.(reboot := s2.at.reboot + 1)), Reboot(false));
    var s4 := Observe(env, s3);
    Observe(env, Emit(s4, Grace(b.pollMin, s4.stop)))
  }

  /** A rebooted cycle runs the recovery loop from `AfterGrace` and then resets the baseline. */
  lemma RebootedUnfold(b: Interval, env: Env, s: State)
    requires s.at.probe < |env.probes| && !env.probes[s.at.probe] && !env.rebootRaises(s.at.reboot)
    ensures var g := AfterGrace(b, env, s);
      var rec := Recover(env, g);
      var t := env.clock(rec.s.at.reading);
      && g.trace == s.trace + [Check(false), Lost(env.clock(s.at.reading) - s.lastUp), Reboot(false), Grace(b.pollMin, s.stop || env.signal(s.at.check))]
      && g.at.probe == s.at.probe + 1 && g.at.reboot == s.at.reboot + 1
      && Cycle(b, env, s) == if rec.Next? then Next(Emit(rec.s.(lastUp := t, at := rec.s.at.(reading := rec.s.at.reading + 1)), Reset(t))) else rec
  {
    var g := AfterGrace(b, env, s);
    match Recover(env, g)
    case OutOfScript(x) =>
      assert Cycle(b, env, s) == OutOfScript(x);
    case Next(x) =>
      var t := env.clock(x.at.reading);
      assert Cycle(b, env, s) == Next(Emit(x.(lastUp := t, at := x.at.(reading := x.at.reading + 1)), Reset(t)));
  }

  /** The baseline, clock readings and stop flag after a rebooted cycle. */
  lemma RebootedFields(b: Interval, env: Env, s: State)
    requires s.at.probe < |env.probes| && !env.probes[s.at.probe] && !env.rebootRaises(s.at.reboot)
    ensures var r := Cycle(b, env, s);
      var cut := s.stop || env.signal(s.at.check);
      && (r.Next? ==> r.s.lastUp == env.clock(s.at.reading + 1) && r.s.at.reading == s.at.reading + 2)
      && (r.OutOfScript? ==> r.s.lastUp == s.lastUp && r.s.at.reading == s.at.reading + 1)
      && (cut ==> r.Next? && r.s.stop && r.s.at.probe == s.at.probe + 1)
  {
    RebootedUnfold(b, env, s);
  }

  /**
   * `t` extends `pre` by one cycle's events: the cycle's probe comes
   * first, no later event is an outer probe or a jittered wait, and every
   * reported uptime is `u`.
   */
  predicate CycleOpened(pre: seq<Event>, t: seq<Event>, up: bool, u: int) {
    && |pre| < |t| && t[..|pre|] == pre && t[|pre|] == Check(up)
    && (forall i | |pre| < i < |t| :: !t[i].Check? && !t[i].Pause?)
    && (forall i | |pre| <= i < |t| && t[i].Lost? :: t[i].upFor == u)
  }

  lemma OpenedHealthy(pre: seq<Event>, u: int)
    ensures CycleOpened(pre, pre + [Check(true)], true, u)
  {
    assert (pre + [Check(true)])[..|pre|] == pre;
  }

  lemma OpenedRaised(pre: seq<Event>, u: int)
    ensures CycleOpened(pre, pre + [Check(false), Lost(u), Reboot(true)], false, u)
  {
    assert (pre + [Check(false), Lost(u), Reboot(true)])[..|pre|] == pre;
  }

  /** Where each event of a rebooted cycle sits in the trace. */
  lemma RebootedLayout(pre: seq<Event>, u: int, p: int, cut: bool, failures: nat, recovered: bool, tail: seq<Event>)
    ensures var rs := Rechecks(failures, recovered);
      var t := pre + [Check(false), Lost(u), Reboot(false), Grace(p, cut)] + rs + tail;
      var n := |pre| + 4;
      && |t| == n + |rs| + |tail| && t[..|pre|] == pre
      && t[|pre|] == Check(false) && t[|pre| + 1] == Lost(u) && t[|pre| + 2] == Reboot(false) && t[|pre| + 3] == Grace(p, cut)
      && (forall i | n <= i < n + |rs| :: t[i] == rs[i - n])
      && (forall i | n + |rs| <= i < |t| :: t[i] == tail[i - n - |rs|])
  {
    var rs := Rechecks(failures, recovered);
    var t := pre + [Check(false), Lost(u), Reboot(false), Grace(p, cut)] + rs + tail;
    assert t[..|pre|] == pre;
  }

  /** A rebooted cycle opens with its failed probe and reports the uptime `u`. */
  lemma RebootedOpened(pre: seq<Event>, u: int, p: int, cut: bool, failures: nat, recovered: bool, tail: seq<Event>)
    requires tail == [] || (|tail| == 1 && tail[0].Reset?)
    ensures CycleOpened(pre, pre + [Check(false), Lost(u), Reboot(false), Grace(p, cut)] + Rechecks(failures, recovered) + tail, false, u)
  {
    RebootedLayout(pre, u, p, cut, failures, recovered, tail);
    RechecksEvents(failures, recovered);
  }

  /** The only Reset of a rebooted cycle is its tail. */
  lemma RebootedResets(pre: seq<Event>, u: int, p: int, cut: bool, failures: nat, recovered: bool, tail: seq<Event>)
    ensures var t := pre + [Check(false), Lost(u), Reboot(false), Grace(p, cut)] + Rechecks(failures, recovered) + tail;
      forall i | |pre| <= i < |t| - |tail| :: !t[i].Reset?
  {
    RebootedLayout(pre, u, p, cut, failures, recovered, tail);
    RechecksEvents(failures, recovered);
  }

  /** In a rebooted cycle only the grace wait can be cut short, and then nothing is probed after it. */
  lemma RebootedCuts(pre: seq<Event>, u: int, p: int, cut: bool, failures: nat, recovered: bool, tail: seq<Event>)
    requires tail == [] || (|tail| == 1 && tail[0].Reset?)
    requires cut ==> failures == 0 && !recovered
    ensures var t := pre + [Check(false), Lost(u), Reboot(false), Grace(p, cut)] + Rechecks(failures, recovered) + tail;
      && (forall i | |pre| <= i < |t| && IsCut(t[i]) :: cut)
      && (forall i, j | |pre| <= i < j < |t| && IsCut(t[i]) :: !IsProbe(t[j]))
  {
    RebootedLayout(pre, u, p, cut, failures, recovered, tail);
    RechecksEvents(failures, recovered);
  }


  /**
   * Every cycle extends the trace; its first event is its probe and no
   * later one is an outer probe or a jittered wait; a reported uptime is
   * measured from the baseline at the cycle's start.
   */
  lemma CycleEvents(b: Interval, env: Env, s: State)
    requires s.at.probe < |env.probes|
    ensures CycleOpened(s.trace, Cycle(b, env, s).s.trace, env.probes[s.at.probe], env.clock(s.at.reading) - s.lastUp)
  {
    var r := Cycle(b, env, s);
    if env.probes[s.at.probe] {
      CycleHealthy(b, env, s);
      var u := env.clock(s.at.reading) - s.lastUp;
      OpenedHealthy(s.trace, u);
      assert r.s.trace == s.trace + [Check(true)];
      assert CycleOpened(s.trace, r.s.trace, true, u);
    } else if env.rebootRaises(s.at.reboot) {
      CycleRaised(b, env, s);
      var u := env.clock(s.at.reading) - s.lastUp;
      OpenedRaised(s.trace, u);
      assert r.s.trace == s.trace + [Check(false), Lost(u), Reboot(true)];
      assert CycleOpened(s.trace, r.s.trace, false, u);
    } else {
      CycleRebooted(b, env, s);
      var u := env.clock(s.at.reading) - s.lastUp;
      var cut := s.stop || env.signal(s.at.check);
      var recovered := r.Next? && !r.s.stop;
      var failures := r.s.at.probe - s.at.probe - 1 - (if recovered then 1 else 0);
      var tail := if r.Next? then [Reset(r.s.lastUp)] else [];
      RebootedOpened(s.trace, u, b.pollMin, cut, failures, recovered, tail);
      assert r.s.trace == s.trace + [Check(false), Lost(u), Reboot(false), Grace(b.pollMin, cut)] + Rechecks(failures, recovered) + tail;
    }
  }

  /**
   * A cycle changes the baseline only through a final Reset naming the
   * new value, a clock reading taken in the cycle; otherwise the baseline
   * is unchanged and the cycle holds no Reset.
   */
  lemma CycleBaseline(b: Interval, env: Env, s: State)
    requires s.at.probe < |env.probes|
    ensures var r := Cycle(b, env, s);
      var t := r.s.trace;
      var reset := !env.probes[s.at.probe] && !env.rebootRaises(s.at.reboot) && r.Next?;
      && |s.trace| < |t|
      && (reset ==> t[|t| - 1] == Reset(r.s.lastUp) && r.s.lastUp == env.clock(r.s.at.reading - 1))
      && (!reset ==> r.s.lastUp == s.lastUp)
      && (forall i | |s.trace| <= i < |t| - (if reset then 1 else 0) :: !t[i].Reset?)
      && s.at.reading <= r.s.at.reading <= s.at.reading + 2
  {
    var r := Cycle(b, env, s);
    if env.probes[s.at.probe] {
      CycleHealthy(b, env, s);
    } else if env.rebootRaises(s.at.reboot) {
      CycleRaised(b, env, s);
    } else {
      CycleRebooted(b, env, s);
      var u := env.clock(s.at.reading) - s.lastUp;
      var cut := s.stop || env.signal(s.at.check);
      var recovered := r.Next? && !r.s.stop;
      var failures := r.s.at.probe - s.at.probe - 1 - (if recovered then 1 else 0);
      var tail := if r.Next? then [Reset(r.s.lastUp)] else [];
      RebootedResets(s.trace, u, b.pollMin, cut, failures, recovered, tail);
      assert r.s.trace == s.trace + [Check(false), Lost(u), Reboot(false), Grace(b.pollMin, cut)] + Rechecks(failures, recovered) + tail;
    }
  }

  /** Once a wait in a cycle is cut short, nothing more is probed and the stop flag stays set. */
  lemma CycleCuts(b: Interval, env: Env, s: State)
    requires s.at.probe < |env.probes|
    ensures var r := Cycle(b, env, s);
      var t := r.s.trace;
      && (forall i | |s.trace| <= i < |t| && IsCut(t[i]) :: r.s.stop)
      && (forall i, j | |s.trace| <= i < j < |t| && IsCut(t[i]) :: !IsProbe(t[j]))
  {
    var r := Cycle(b, env, s);
    if env.probes[s.at.probe] {
      CycleHealthy(b, env, s);
    } else if env.rebootRaises(s.at.reboot) {
      CycleRaised(b, env, s);
    } else {
      CycleRebooted(b, env, s);
      var u := env.clock(s.at.reading) - s.lastUp;
      var cut := s.stop || env.signal(s.at.check);
      var recovered := r.Next? && !r.s.stop;
      var failures := r.s.at.probe - s.at.probe - 1 - (if recovered then 1 else 0);
      var tail := if r.Next? then [Reset(r.s.lastUp)] else [];
      RebootedCuts(s.trace, u, b.pollMin, cut, failures, recovered, tail);
      assert r.s.trace == s.trace + [Check(false), Lost(u), Reboot(false), Grace(b.pollMin, cut)] + Rechecks(failures, recovered) + tail;
    }
  }

  /** The wait that ends a cycle appends one jittered Pause and touches nothing else the loop reads. */
  lemma WaitStep(b: Interval, env: Env, x: State)
    requires b.pollMin <= b.pollMax
    ensures var n := Observe(env, Wait(b, env, x));
      && n.trace == x.trace + [Pause(RandInt(b.pollMin, b.pollMax, env.jitter(x.at.draw)), x.stop || env.signal(x.at.check))]
      && n.lastUp == x.lastUp && (x.stop || env.signal(x.at.check) ==> n.stop)
      && n.at.probe == x.at.probe && n.at.reading == x.at.reading && n.at.reboot == x.at.reboot
  {
  }

  /** The loop only ever appends to the trace. */
  lemma {:induction false} ContinueExtends(b: Interval, env: Env, s: State)
    requires s.at.probe <= |env.probes|
    ensures var f := Continue(b, env, s); |s.trace| <= |f.s.trace| && f.s.trace[..|s.trace|] == s.trace
    decreases |env.probes| - s.at.probe
  {
    if !s.stop && s.at.probe < |env.probes| {
      CycleEvents(b, env, s);
      var c := Cycle(b, env, s);
      if c.Next? && b.pollMin <= b.pollMax {
        var n := Observe(env, Wait(b, env, c.s));
        ContinueExtends(b, env, n);
        var f := Continue(b, env, n);
        assert f.s.trace[..|s.trace|] == f.s.trace[..|n.trace|][..|s.trace|];
      }
    }
  }

  /** Every jittered wait in the trace lies within the configured interval. */
  predicate PausesWithin(b: Interval, t: seq<Event>) {
    forall i | 0 <= i < |t| && t[i].Pause? :: b.pollMin <= t[i].seconds <= b.pollMax
  }

  lemma {:induction false} ContinuePausesWithin(b: Interval, env: Env, s: State)
    requires s.at.probe <= |env.probes| && PausesWithin(b, s.trace)
    ensures PausesWithin(b, Continue(b, env, s).s.trace)
    decreases |env.probes| - s.at.probe
  {
    if !s.stop && s.at.probe < |env.probes| {
      CycleEvents(b, env, s);
      var c := Cycle(b, env, s);
      assert PausesWithin(b, c.s.trace);
      if c.Next? && b.pollMin <= b.pollMax {
        var n := Observe(env, Wait(b, env, c.s));
        assert PausesWithin(b, n.trace);
        ContinuePausesWithin(b, env, n);
      }
    }
  }

  /** Every wait that ends a cycle is drawn from [pollMin, pollMax]. */
  lemma PausesWithinInterval(b: Interval, env: Env, lastUp: int, stop: bool)
    ensures PausesWithin(b, Run(b, env, lastUp, stop).s.trace)
  {
    ContinuePausesWithin(b, env, Observe(env, Start(lastUp, stop)));
  }

  /**
   * With pollMin > pollMax the first draw raises outside the handler: the
   * run never waits the jittered interval, probes at the top of the loop at
   * most once, and ends Aborted as soon as a cycle completes. With a valid
   * interval it never aborts.
   */
  lemma InvertedIntervalAborts(b: Interval, env: Env, lastUp: int, stop: bool)
    ensures var f := Run(b, env, lastUp, stop);
      var t := f.s.trace;
      && (b.pollMin <= b.pollMax ==> f.outcome != Aborted)
      && (b.pollMax < b.pollMin ==>
            && (forall i | 0 <= i < |t| :: !t[i].Pause?)
            && (forall i | 0 < i < |t| :: !t[i].Check?)
            && (f.outcome == Stopped ==> t == [])
            && (f.outcome == Aborted ==> |t| > 0 && t[0].Check?)
            && (var s0 := Observe(env, Start(lastUp, stop));
                !s0.stop && Cycle(b, env, s0).Next? ==> f.outcome == Aborted))
  {
    var s0 := Observe(env, Start(lastUp, stop));
    if b.pollMax < b.pollMin && !s0.stop && 0 < |env.probes| {
      CycleEvents(b, env, s0);
    }
  }

  /** The value of the latest Reset in `t`, or `initial` when there is none. */
  function LatestReset(t: seq<Event>, initial: int): int {
    if t == [] then initial
    else if t[|t| - 1].Reset? then t[|t| - 1].at
    else LatestReset(t[..|t| - 1], initial)
  }

  lemma {:induction false} LatestResetSkips(t: seq<Event>, a: seq<Event>, initial: int)
    requires forall i | 0 <= i < |a| :: !a[i].Reset?
    ensures LatestReset(t + a, initial) == LatestReset(t, initial)
    decreases |a|
  {
    if a == [] {
      assert t + a == t;
    } else {
      assert (t + a)[..|t + a| - 1] == t + a[..|a| - 1];
      LatestResetSkips(t, a[..|a| - 1], initial);
    }
  }

  /** A cycle keeps the baseline equal to the latest Reset. */
  lemma CycleKeepsBaseline(b: Interval, env: Env, s: State, initial: int)
    requires s.at.probe < |env.probes| && s.lastUp == LatestReset(s.trace, initial)
    ensures var c := Cycle(b, env, s).s; c.lastUp == LatestReset(c.trace, initial)
  {
    CycleEvents(b, env, s);
    CycleBaseline(b, env, s);
    var c := Cycle(b, env, s);
    var t := c.s.trace;
    if !(t[|t| - 1].Reset? && c.s.lastUp == t[|t| - 1].at) {
      LatestResetSkips(s.trace, t[|s.trace|..], initial);
      assert s.trace + t[|s.trace|..] == t;
    }
  }

  lemma {:induction false} ContinueBaseline(b: Interval, env: Env, s: State, initial: int)
    requires s.at.probe <= |env.probes| && s.lastUp == LatestReset(s.trace, initial)
    ensures var f := Continue(b, env, s); f.s.lastUp == LatestReset(f.s.trace, initial)
    decreases |env.probes| - s.at.probe
  {
    if !s.stop && s.at.probe < |env.probes| {
      CycleKeepsBaseline(b, env, s, initial);
      var c := Cycle(b, env, s);
      if c.Next? && b.pollMin <= b.pollMax {
        WaitStep(b, env, c.s);
        var n := Observe(env, Wait(b, env, c.s));
        assert n.trace[..|n.trace| - 1] == c.s.trace;
        ContinueBaseline(b, env, n, initial);
      }
    }
  }


  /**
   * The uptime baseline changes only by a Reset event: at the end of a run
   * it is the value of the latest Reset, or the initial one when the trace
   * holds none.
   */
  lemma BaselineIsLatestReset(b: Interval, env: Env, lastUp: int, stop: bool)
    ensures var f := Run(b, env, lastUp, stop); f.s.lastUp == LatestReset(f.s.trace, lastUp)
  {
    ContinueBaseline(b, env, Observe(env, Start(lastUp, stop)), lastUp);
  }

  /** How often `e` occurs in `t`. */
  function Occurrences(t: seq<Event>, e: Event): nat
  {
    if t == [] then 0 else Occurrences(t[..|t| - 1], e) + (if t[|t| - 1] == e then 1 else 0)
  }

  lemma {:induction false} OccurrencesAppend(t: seq<Event>, u: seq<Event>, e: Event)
    ensures Occurrences(t + u, e) == Occurrences(t, e) + Occurrences(u, e)
    decreases |u|
  {
    if u == [] {
      assert t + u == t;
    } else {
      var u' := u[..|u| - 1];
      assert (t + u)[..|t + u| - 1] == t + u';
      OccurrencesAppend(t, u', e);
    }
  }

  lemma OccurrencesCons(x: Event, t: seq<Event>, e: Event)
    ensures Occurrences([x] + t, e) == (if x == e then 1 else 0) + Occurrences(t, e)
  {
    OccurrencesAppend([x], t, e);
    assert [x][..0] == [];
  }

  /** `n` failed recovery probes come with exactly `n` sleeps, and nothing else. */
  lemma {:induction false} AttemptsCount(n: nat, e: Event)
    ensures Occurrences(Attempts(n), e) == if e == Recheck(false) || e == Sleep(RECOVERY_SLEEP) then n else 0
  {
    if n > 0 {
      AttemptsCount(n - 1, e);
      assert Attempts(n) == [Recheck(false)] + ([Sleep(RECOVERY_SLEEP)] + Attempts(n - 1));
      OccurrencesCons(Recheck(false), [Sleep(RECOVERY_SLEEP)] + Attempts(n - 1), e);
      OccurrencesCons(Sleep(RECOVERY_SLEEP), Attempts(n - 1), e);
    }
  }

  /** Reboots match failed outer probes and the reboot counter; sleeps match failed recovery probes. */
  predicate Counted(t: seq<Event>, reboots: nat) {
    && Occurrences(t, Reboot(true)) + Occurrences(t, Reboot(false)) == Occurrences(t, Check(false)) == reboots
    && Occurrences(t, Sleep(RECOVERY_SLEEP)) == Occurrences(t, Recheck(false))
  }

  /** The events that open a rebooted cycle, counted. */
  lemma OpeningCount(u: int, p: int, cut: bool, e: Event)
    ensures Occurrences([Check(false), Lost(u), Reboot(false), Grace(p, cut)], e)
      == (if e == Check(false) then 1 else 0) + (if e == Lost(u) then 1 else 0)
         + (if e == Reboot(false) then 1 else 0) + (if e == Grace(p, cut) then 1 else 0)
  {
    assert [Check(false), Lost(u), Reboot(false), Grace(p, cut)] == [Check(false)] + ([Lost(u)] + ([Reboot(false)] + ([Grace(p, cut)] + [])));
    OccurrencesCons(Check(false), [Lost(u)] + ([Reboot(false)] + ([Grace(p, cut)] + [])), e);
    OccurrencesCons(Lost(u), [Reboot(false)] + ([Grace(p, cut)] + []), e);
    OccurrencesCons(Reboot(false), [Grace(p, cut)] + [], e);
    OccurrencesCons(Grace(p, cut), [], e);
  }

  /** The recovery loop's events, counted. */
  lemma RechecksCount(failures: nat, recovered: bool, e: Event)
    ensures Occurrences(Rechecks(failures, recovered), e)
      == (if e == Recheck(false) || e == Sleep(RECOVERY_SLEEP) then failures else 0) + (if recovered && e == Recheck(true) then 1 else 0)
  {
    AttemptsCount(failures, e);
    if recovered {
      OccurrencesAppend(Attempts(failures), [Recheck(true)], e);
      OccurrencesCons(Recheck(true), [], e);
    } else {
      assert Rechecks(failures, recovered) == Attempts(failures);
    }
  }

  /** What a rebooted cycle adds to the count of one of the counted events. */
  lemma RebootedOccurrences(pre: seq<Event>, u: int, p: int, cut: bool, failures: nat, recovered: bool, tail: seq<Event>, e: Event)
    requires tail == [] || (|tail| == 1 && tail[0].Reset?)
    requires e.Check? || e.Reboot? || e == Recheck(false) || e == Sleep(RECOVERY_SLEEP)
    ensures Occurrences(pre + [Check(false), Lost(u), Reboot(false), Grace(p, cut)] + Rechecks(failures, recovered) + tail, e)
      == Occurrences(pre, e) + (if e == Check(false) || e == Reboot(false) then 1 else 0)
         + (if e == Recheck(false) || e == Sleep(RECOVERY_SLEEP) then failures else 0)
  {
    var x := [Check(false), Lost(u), Reboot(false), Grace(p, cut)];
    var rs := Rechecks(failures, recovered);
    OccurrencesAppend(pre + x + rs, tail, e);
    OccurrencesAppend(pre + x, rs, e);
    OccurrencesAppend(pre, x, e);
    OpeningCount(u, p, cut, e);
    RechecksCount(failures, recovered, e);
    if tail != [] {
      assert tail == [tail[0]] + [];
      OccurrencesCons(tail[0], [], e);
    }
  }

  /** A rebooted cycle adds one failed probe, one reboot, and as many sleeps as failed recovery probes. */
  lemma RebootedCounted(t: seq<Event>, pre: seq<Event>, k: nat, u: int, p: int, cut: bool, failures: nat, recovered: bool, tail: seq<Event>)
    requires tail == [] || (|tail| == 1 && tail[0].Reset?)
    requires Counted(pre, k)
    requires t == pre + [Check(false), Lost(u), Reboot(false), Grace(p, cut)] + Rechecks(failures, recovered) + tail
    ensures Counted(t, k + 1)
  {
    RebootedOccurrences(pre, u, p, cut, failures, recovered, tail, Check(false));
    RebootedOccurrences(pre, u, p, cut, failures, recovered, tail, Reboot(true));
    RebootedOccurrences(pre, u, p, cut, failures, recovered, tail, Reboot(false));
    RebootedOccurrences(pre, u, p, cut, failures, recovered, tail, Recheck(false));
    RebootedOccurrences(pre, u, p, cut, failures, recovered, tail, Sleep(RECOVERY_SLEEP));
  }

  /** A cycle whose probe succeeds adds nothing counted. */
  lemma HealthyCounted(pre: seq<Event>, k: nat)
    requires Counted(pre, k)
    ensures Counted(pre + [Check(true)], k)
  {
    forall e
      ensures Occurrences(pre + [Check(true)], e) == Occurrences(pre, e) + (if e == Check(true) then 1 else 0)
    {
      OccurrencesAppend(pre, [Check(true)], e);
      OccurrencesCons(Check(true), [], e);
    }
  }

  /** A cycle whose reboot raises adds one failed probe and one reboot. */
  lemma RaisedCounted(pre: seq<Event>, k: nat, u: int)
    requires Counted(pre, k)
    ensures Counted(pre + [Check(false), Lost(u), Reboot(true)], k + 1)
  {
    var x := [Check(false), Lost(u), Reboot(true)];
    assert x == [Check(false)] + ([Lost(u)] + ([Reboot(true)] + []));
    forall e
      ensures Occurrences(pre + x, e)
        == Occurrences(pre, e) + (if e == Check(false) then 1 else 0) + (if e == Lost(u) then 1 else 0) + (if e == Reboot(true) then 1 else 0)
    {
      OccurrencesAppend(pre, x, e);
      OccurrencesCons(Check(false), [Lost(u)] + ([Reboot(true)] + []), e);
      OccurrencesCons(Lost(u), [Reboot(true)] + [], e);
      OccurrencesCons(Reboot(true), [], e);
    }
  }

  lemma RebootedKeepsCounted(b: Interval, env: Env, s: State)
    requires s.at.probe < |env.probes| && !env.probes[s.at.probe] && !env.rebootRaises(s.at.reboot)
    requires Counted(s.trace, s.at.reboot)
    ensures var c := Cycle(b, env, s).s; Counted(c.trace, c.at.reboot)
  {
    var r := Cycle(b, env, s);
    var u := env.clock(s.at.reading) - s.lastUp;
    var cut := s.stop || env.signal(s.at.check);
    var recovered := r.Next? && !r.s.stop;
    var failures := r.s.at.probe - s.at.probe - 1 - (if recovered then 1 else 0);
    var tail := if r.Next? then [Reset(r.s.lastUp)] else [];
    assert failures >= 0 && r.s.at.reboot == s.at.reboot + 1
      && r.s.trace == s.trace + [Check(false), Lost(u), Reboot(false), Grace(b.pollMin, cut)] + Rechecks(failures, recovered) + tail
    by {
      CycleRebooted(b, env, s);
    }
    RebootedCounted(r.s.trace, s.trace, s.at.reboot, u, b.pollMin, cut, failures, recovered, tail);
  }

  lemma CycleKeepsCounted(b: Interval, env: Env, s: State)
    requires s.at.probe < |env.probes| && Counted(s.trace, s.at.reboot)
    ensures var c := Cycle(b, env, s).s; Counted(c.trace, c.at.reboot)
  {
    if env.probes[s.at.probe] {
      CycleHealthy(b, env, s);
      HealthyCounted(s.trace, s.at.reboot);
    } else if env.rebootRaises(s.at.reboot) {
      CycleRaised(b, env, s);
      RaisedCounted(s.trace, s.at.reboot, env.clock(s.at.reading) - s.lastUp);
    } else {
      RebootedKeepsCounted(b, env, s);
    }
  }

  lemma {:induction false} ContinueCounted(b: Interval, env: Env, s: State)
    requires s.at.probe <= |env.probes| && Counted(s.trace, s.at.reboot)
    ensures var f := Continue(b, env, s); Counted(f.s.trace, f.s.at.reboot)
    decreases |env.probes| - s.at.probe
  {
    if !s.stop && s.at.probe < |env.probes| {
      CycleKeepsCounted(b, env, s);
      var c := Cycle(b, env, s);
      if c.Next? && b.pollMin <= b.pollMax {
        WaitStep(b, env, c.s);
        ContinueCounted(b, env, Observe(env, Wait(b, env, c.s)));
      }
    }
  }

  /**
   * Over a whole run, every failed outer probe is matched by exactly one
   * call of the rebooter (and the reboot counter agrees), and every failed
   * recovery probe by exactly one 5-second sleep.
   */
  lemma RebootsMatchFailedProbes(b: Interval, env: Env, lastUp: int, stop: bool)
    ensures var f := Run(b, env, lastUp, stop); var t := f.s.trace;
      && Occurrences(t, Reboot(true)) + Occurrences(t, Reboot(false)) == Occurrences(t, Check(false)) == f.s.at.reboot
      && Occurrences(t, Sleep(RECOVERY_SLEEP)) == Occurrences(t, Recheck(false))
  {
    ContinueCounted(b, env, Observe(env, Start(lastUp, stop)));
  }


  /** The clock never goes backwards. */
  ghost predicate Monotone(clock: nat -> int) {
    forall i: nat, j: nat | i <= j :: clock(i) <= clock(j)
  }

  /** Resets never go backwards, start at `initial` or later, and end at or below `current`. */
  predicate ResetsOrdered(t: seq<Event>, initial: int, current: int) {
    && (forall i | 0 <= i < |t| && t[i].Reset? :: initial <= t[i].at <= current)
    && (forall i, j | 0 <= i < j < |t| && t[i].Reset? && t[j].Reset? :: t[i].at <= t[j].at)
  }

  /** Every reported uptime is non-negative. */
  predicate UptimesNonNegative(t: seq<Event>) {
    forall i | 0 <= i < |t| && t[i].Lost? :: t[i].upFor >= 0
  }

  /** The invariant behind LastUpNeverDecreases, kept by one cycle. */
  lemma CycleKeepsOrder(b: Interval, env: Env, s: State, initial: int)
    requires Monotone(env.clock) && s.at.probe < |env.probes|
    requires initial <= s.lastUp <= env.clock(s.at.reading)
    requires ResetsOrdered(s.trace, initial, s.lastUp) && UptimesNonNegative(s.trace)
    ensures var c := Cycle(b, env, s).s;
      && initial <= c.lastUp <= env.clock(c.at.reading)
      && ResetsOrdered(c.trace, initial, c.lastUp) && UptimesNonNegative(c.trace)
  {
    CycleEvents(b, env, s);
    CycleBaseline(b, env, s);
    var c := Cycle(b, env, s);
    assert s.lastUp <= c.s.lastUp <= env.clock(c.s.at.reading);
    var reset := !env.probes[s.at.probe] && !env.rebootRaises(s.at.reboot) && c.Next?;
    ExtendKeepsOrder(s.trace, c.s.trace, initial, s.lastUp, c.s.lastUp, env.probes[s.at.probe], env.clock(s.at.reading) - s.lastUp, reset);
  }

  /** Appending one cycle's events keeps the Resets ordered and the uptimes non-negative. */
  lemma ExtendKeepsOrder(pre: seq<Event>, t: seq<Event>, initial: int, before: int, after: int, up: bool, u: int, reset: bool)
    requires CycleOpened(pre, t, up, u) && u >= 0
    requires ResetsOrdered(pre, initial, before) && UptimesNonNegative(pre)
    requires initial <= before <= after
    requires reset ==> t[|t| - 1] == Reset(after)
    requires !reset ==> after == before
    requires forall i | |pre| <= i < |t| - (if reset then 1 else 0) :: !t[i].Reset?
    ensures ResetsOrdered(t, initial, after) && UptimesNonNegative(t)
  {
    assert forall i | 0 <= i < |pre| :: t[i] == pre[i];
  }

  lemma {:induction false} ContinueMonotone(b: Interval, env: Env, s: State, initial: int)
    requires Monotone(env.clock)
    requires s.at.probe <= |env.probes|
    requires initial <= s.lastUp <= env.clock(s.at.reading)
    requires ResetsOrdered(s.trace, initial, s.lastUp) && UptimesNonNegative(s.trace)
    ensures var f := Continue(b, env, s);
      initial <= f.s.lastUp && ResetsOrdered(f.s.trace, initial, f.s.lastUp) && UptimesNonNegative(f.s.trace)
    decreases |env.probes| - s.at.probe
  {
    if !s.stop && s.at.probe < |env.probes| {
      CycleKeepsOrder(b, env, s, initial);
      var c := Cycle(b, env, s);
      if c.Next? && b.pollMin <= b.pollMax {
        WaitStep(b, env, c.s);
        ContinueMonotone(b, env, Observe(env, Wait(b, env, c.s)), initial);
      }
    }
  }


  /**
   * Under a monotone clock, starting from a baseline not ahead of the
   * clock: the baseline never decreases, successive Resets never go
   * backwards, and every reported uptime is non-negative, so its formatted
   * days, hours, minutes and seconds are too.
   */
  lemma LastUpNeverDecreases(b: Interval, env: Env, lastUp: int, stop: bool)
    requires Monotone(env.clock) && lastUp <= env.clock(0)
    ensures var f := Run(b, env, lastUp, stop);
      && lastUp <= f.s.lastUp
      && ResetsOrdered(f.s.trace, lastUp, f.s.lastUp)
      && forall i | 0 <= i < |f.s.trace| && f.s.trace[i].Lost? ::
           f.s.trace[i].upFor >= 0 && Components(f.s.trace[i].upFor as real).days >= 0
  {
    ContinueMonotone(b, env, Observe(env, Start(lastUp, stop)), lastUp);
  }

  /** Nothing is probed after a wait the stop flag cut short. */
  predicate NoProbeAfterCut(t: seq<Event>) {
    forall i, j | 0 <= i < j < |t| && IsCut(t[i]) :: !IsProbe(t[j])
  }

  /** A cycle entered with the flag clear keeps the stop invariant. */
  lemma CycleKeepsStop(b: Interval, env: Env, s: State)
    requires s.at.probe < |env.probes| && !s.stop && NoProbeAfterCut(s.trace)
    requires forall i | 0 <= i < |s.trace| :: !IsCut(s.trace[i])
    ensures var c := Cycle(b, env, s).s;
      && NoProbeAfterCut(c.trace)
      && forall i | 0 <= i < |c.trace| && IsCut(c.trace[i]) :: c.stop
  {
    CycleEvents(b, env, s);
    CycleCuts(b, env, s);
  }

  lemma {:induction false} ContinueStopIsFinal(b: Interval, env: Env, s: State)
    requires s.at.probe <= |env.probes| && NoProbeAfterCut(s.trace)
    requires forall i | 0 <= i < |s.trace| && IsCut(s.trace[i]) :: s.stop
    ensures var f := Continue(b, env, s);
      && NoProbeAfterCut(f.s.trace)
      && forall i | 0 <= i < |f.s.trace| && IsCut(f.s.trace[i]) ::
           f.s.stop && (b.pollMin <= b.pollMax ==> f.outcome == Stopped)
    decreases |env.probes| - s.at.probe
  {
    if !s.stop && s.at.probe < |env.probes| {
      CycleKeepsStop(b, env, s);
      var c := Cycle(b, env, s);
      if c.Next? && b.pollMin <= b.pollMax {
        WaitStep(b, env, c.s);
        ContinueStopIsFinal(b, env, Observe(env, Wait(b, env, c.s)));
      }
    }
  }


  /**
   * The stop flag is final: once a wait has been cut short by it, no
   * further probe is made and the flag is still set at the end; the run
   * ends Stopped unless the interval draw aborts it first. A flag set
   * before the loop starts ends the run at once.
   */
  lemma StopIsFinal(b: Interval, env: Env, lastUp: int, stop: bool)
    ensures var f := Run(b, env, lastUp, stop);
      && NoProbeAfterCut(f.s.trace)
      && (forall i | 0 <= i < |f.s.trace| && IsCut(f.s.trace[i]) ::
            f.s.stop && (b.pollMin <= b.pollMax ==> f.outcome == Stopped))
      && (stop ==> f.outcome == Stopped && f.s.trace == [])
  {
    ContinueStopIsFinal(b, env, Observe(env, Start(lastUp, stop)));
  }

  /**
   * A rebooter that raises is caught by the catch-all handler: the cycle
   * skips the grace period, the recovery loop and the reset, and goes
   * straight on to the jittered wait.
   */
  lemma RaisedRebootStillWaits(b: Interval, env: Env, s: State)
    requires b.pollMin <= b.pollMax && !s.stop
    requires s.at.probe < |env.probes| && !env.probes[s.at.probe] && env.rebootRaises(s.at.reboot)
    ensures var f := Continue(b, env, s);
      && |s.trace| + 4 <= |f.s.trace|
      && f.s.trace[|s.trace|..|s.trace| + 4] == [
           Check(false), Lost(env.clock(s.at.reading) - s.lastUp), Reboot(true),
           Pause(RandInt(b.pollMin, b.pollMax, env.jitter(s.at.draw)), env.signal(s.at.check))]
  {
    CycleRaised(b, env, s);
    var c := Cycle(b, env, s);
    var n := Observe(env, Wait(b, env, c.s));
    assert Continue(b, env, s) == Continue(b, env, n);
    ContinueExtends(b, env, n);
    assert n.trace[|s.trace|..] == [
      Check(false), Lost(env.clock(s.at.reading) - s.lastUp), Reboot(true),
      Pause(RandInt(b.pollMin, b.pollMax, env.jitter(s.at.draw)), env.signal(s.at.check))];
  }

  /** The cycle of the worked run below, state by state. */
  lemma FailFailSucceedCycle(b: Interval, env: Env, lastUp: int)
    requires env.probes == [false, false, true] && !env.rebootRaises(0)
    requires forall k :: !env.signal(k)
    ensures Cycle(b, env, Observe(env, Start(lastUp, false))) == Next(State(env.clock(1), false, Cursor(3, 1, 2, 0, 4), [
      Check(false), Lost(env.clock(0) - lastUp), Reboot(false), Grace(b.pollMin, false),
      Recheck(false), Sleep(RECOVERY_SLEEP), Recheck(true), Reset(env.clock(1))]))
  {
    var s0 := Observe(env, Start(lastUp, false));
    var s1 := Emit(s0.(at := s0.at.(probe := 1)), Check(false));
    var s2 := Emit(s1.(at := s1.at.(reading := 1)), Lost(env.clock(0) - lastUp));
    var s3 := Emit(s2.(at := s2.at.(reboot := 1)), Reboot(false));
    var s6 := Observe(env, Emit(Observe(env, s3), Grace(b.pollMin, false)));
    var s8 := Observe(env, Emit(Emit(s6.(at := s6.at.(probe := 2)), Recheck(false)), Sleep(RECOVERY_SLEEP)));
    var s9 := Emit(s8.(at := s8.at.(probe := 3)), Recheck(true));
    assert Recover(env, s8) == Next(s9);
    assert Recover(env, s6) == Next(s9);
    assert Cycle(b, env, s0) == Next(Emit(s9.(lastUp := env.clock(1), at := s9.at.(reading := 2)), Reset(env.clock(1))));
  }

  /**
   * A worked run: the probe fails, the reboot succeeds, the first recovery
   * probe fails and the second succeeds. The rebooter is called once, one
   * 5-second sleep separates the two recovery probes, the baseline is reset
   * to the second clock reading, and the cycle ends with a jittered wait.
   */
  lemma FailFailSucceed(b: Interval, env: Env, lastUp: int)
    requires env.probes == [false, false, true] && !env.rebootRaises(0)
    requires forall k :: !env.signal(k)
    requires b.pollMin <= b.pollMax
    ensures var f := Run(b, env, lastUp, false);
      && f.outcome == ScriptExhausted
      && f.s.at.reboot == 1
      && f.s.lastUp == env.clock(1)
      && f.s.trace == [
           Check(false), Lost(env.clock(0) - lastUp), Reboot(false), Grace(b.pollMin, false),
           Recheck(false), Sleep(RECOVERY_SLEEP), Recheck(true), Reset(env.clock(1)),
           Pause(RandInt(b.pollMin, b.pollMax, env.jitter(0)), false)]
  {
    FailFailSucceedCycle(b, env, lastUp);
    var c := Cycle(b, env, Observe(env, Start(lastUp, false))).s;
    WaitStep(b, env, c);
    var n := Observe(env, Wait(b, env, c));
    assert Continue(b, env, n) == Final(ScriptExhausted, n);
  }


  /**
   * A stop signal that arrives during the grace period skips the recovery
   * probes, yet the baseline is still reset to a fresh clock reading, and
   * the run then stops after its jittered wait.
   */
  lemma StopDuringGraceStillResets(b: Interval, env: Env, lastUp: int)
    requires |env.probes| == 1 && !env.probes[0] && !env.rebootRaises(0)
    requires forall k :: env.signal(k) == (k >= 1)
    requires b.pollMin <= b.pollMax
    ensures var f := Run(b, env, lastUp, false);
      && f.outcome == Stopped
      && f.s.lastUp == env.clock(1)
      && f.s.trace == [
           Check(false), Lost(env.clock(0) - lastUp), Reboot(false), Grace(b.pollMin, true),
           Reset(env.clock(1)), Pause(RandInt(b.pollMin, b.pollMax, env.jitter(0)), true)]
  {
    var s0 := Observe(env, Start(lastUp, false));
    CycleRebooted(b, env, s0);
    var c := Cycle(b, env, s0);
    assert c.Next? && c.s.at.probe == 1;
    assert c.s.trace == [Check(false), Lost(env.clock(0) - lastUp), Reboot(false), Grace(b.pollMin, true), Reset(env.clock(1))];
    var n := Observe(env, Wait(b, env, c.s));
    assert Run(b, env, lastUp, false) == Continue(b, env, n);
  }
}
