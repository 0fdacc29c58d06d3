/** The 1PPS input simulated by the mock clock (ptp/ptp_mock.c): a self-rearming timer that
    reports one external timestamp per TAI second, after a configurable delay.

    Times are monotonic nanoseconds; TAI is monotonic time plus the constant tai of a World.
    A World also bounds how late a due callback starts and how long it runs. */
module Extts {
  import opened Prelude
  import opened CInts
  import opened MockPhc

  const MSEC: int := 1_000_000
  const IDLE_POLL: int := 100 * MSEC
  const EDGE_SLACK: int := MSEC
  const MAX_DELAY_MS: int := 900

  datatype World = World(tai: int, latency: int, duration: int)

  /** Fast enough never to lose a pulse: PromptExactly shows that nothing less will do. */
  predicate Prompt(w: World) {
    0 <= w.latency && 0 <= w.duration && w.latency < 99 * MSEC && w.latency + w.duration < 100 * MSEC
  }

  /** An event, the TAI second it was emitted for and the delay in force. */
  datatype Event = Event(second: int, stamp: int, delayMs: int)

  /** now is the last instant something happened; start is the second in which the pulses were
      last enabled and skew the time between its two clock readings; log the events since. */
  datatype State = State(phc: Phc, enabled: bool, lastSec: int, delayMs: int, expires: int,
                         now: int, start: int, skew: int, log: seq<Event>)

  function Sec(w: World, t: int): int { (t + w.tai) / NSEC_PER_SEC }
  function Late(w: World, t: int): int { (t + w.tai) % NSEC_PER_SEC }

  /** hrtimer_forward_now: by whole intervals to the first point after now. */
  function Forward(expires: int, now: int, interval: int): int
    requires interval > 0
  {
    if now < expires then expires else expires + ((now - expires) / interval + 1) * interval
  }

  /** The timer callback: TAI is read at t, the clock at r, the timer is moved at done. */
  function Fired(w: World, s: State, t: int, r: int, done: int): State
    requires 0 <= s.delayMs
  {
    var late, delay := Late(w, t), s.delayMs * MSEC;
    if !s.enabled then
      s.(expires := Forward(s.expires, done, IDLE_POLL), now := done)
    else if Sec(w, t) != s.lastSec && late < delay then
      s.(expires := Forward(s.expires, done, delay - late), now := done)
    else
      var s1 := if Sec(w, t) != s.lastSec
                then s.(lastSec := Sec(w, t), phc := Read(s.phc, r),
                        log := s.log + [Event(Sec(w, t), Shows(Read(s.phc, r)) - (late - delay), s.delayMs)])
                else s;
      s1.(expires := Forward(s.expires, done, NSEC_PER_SEC - late + delay + EDGE_SLACK), now := done)
  }

  /** Enabling parks the clock at TAI: monotonic time is read at m, TAI at t. */
  function Enabled(w: World, s: State, m: int, t: int): State {
    s.(phc := Phc(t + w.tai - m, 0, m), enabled := true, lastSec := Sec(w, t), now := t,
       start := Sec(w, t), skew := t - m, log := [])
  }

  /** A new delay restarts the timer when the pulses are on. */
  function Stored(s: State, t: int, ms: int): (State, Errno) {
    if ms > MAX_DELAY_MS then (s.(now := t), ERANGE)
    else (s.(delayMs := ms, now := t, expires := if s.enabled then t + EDGE_SLACK else s.expires), Ok)
  }

  /** Clock is any reading or adjustment of the clock. */
  datatype Step = Fire(t: int, r: int, done: int) | Enable(m: int, t: int) | Disable(t: int)
                | Store(t: int, ms: nat) | Clock(op: MockPhc.Op)

  function Next(w: World, s: State, step: Step): State
    requires 0 <= s.delayMs
  {
    match step
    case Fire(t, r, done) => Fired(w, s, t, r, done)
    case Enable(m, t) => Enabled(w, s, m, t)
    case Disable(t) => s.(enabled := false, now := t)
    case Store(t, ms) => Stored(s, t, ms).0
    case Clock(op) => s.(phc := Do(s.phc, op), now := op.t)
  }

  /** Time moves on, a callback runs when due, and nothing happens later than a due callback may
      start: the callback would have come first.  Restarts are harmless ones. */
  predicate Legal(w: World, s: State, step: Step) {
    match step
    case Fire(t, r, done) => s.now <= t && s.expires <= t <= s.expires + w.latency && t <= r <= done <= t + w.duration
    case Enable(m, t) => s.now <= m <= t <= s.expires + w.latency
    case Disable(t) => s.now <= t <= s.expires + w.latency
    case Store(t, ms) => s.now <= t <= s.expires + w.latency && (s.enabled && ms <= MAX_DELAY_MS ==> Harmless(w, s, t))
    case Clock(op) => s.now <= op.t <= s.expires + w.latency
  }

  /** A restart at t is harmless when the second's pulse is out, or the restarted timer is served
      within the second even at its latest: RestartExactly shows that no other restart is. */
  predicate Harmless(w: World, s: State, t: int) {
    Sec(w, t) == s.lastSec || Late(w, t) + EDGE_SLACK + w.latency < NSEC_PER_SEC
  }

  // ---- the pace of the timer ------------------------------------------------------------

  /** The next callback comes within the second after sec. */
  predicate Due(w: World, s: State, sec: int) {
    s.expires + w.latency + w.tai < (sec + 2) * NSEC_PER_SEC
  }

  /** One event each for the seconds after the enabling, in order, and none missing that is over. */
  predicate EveryPulse(w: World, s: State) {
    && (forall i | 0 <= i < |s.log| :: s.log[i].second == s.start + 1 + i)
    && Sec(w, s.now) - 1 <= s.start + |s.log| <= Sec(w, s.now)
  }

  ghost predicate Paced(w: World, s: State) {
    && 0 <= s.delayMs <= MAX_DELAY_MS
    && s.now <= s.expires + w.latency
    && Due(w, s, Sec(w, s.now))
    && (s.enabled ==> Due(w, s, s.lastSec) && s.lastSec == s.start + |s.log| && EveryPulse(w, s))
  }

  lemma SecFacts(w: World, t: int)
    ensures t + w.tai == Sec(w, t) * NSEC_PER_SEC + Late(w, t) && 0 <= Late(w, t) < NSEC_PER_SEC
  {
  }

  lemma SecMonotone(w: World, t: int, u: int)
    requires t <= u
    ensures Sec(w, t) <= Sec(w, u)
  {
  }

  lemma ForwardBound(expires: int, now: int, interval: int)
    requires interval > 0 && expires <= now
    ensures now < Forward(expires, now, interval) <= now + interval
  {
    var k := (now - expires) / interval;
    assert now - expires == k * interval + (now - expires) % interval;
    assert (k + 1) * interval == k * interval + interval;
  }

  /** A callback that is done before the next point of the timer's grid moves it by one interval. */
  lemma ForwardOnce(expires: int, now: int, interval: int)
    requires interval > 0 && expires <= now < expires + interval
    ensures Forward(expires, now, interval) == expires + interval
  {
    assert (now - expires) / interval == 0;
  }

  lemma NeverAhead(w: World, s: State, sec: int, t: int)
    requires Due(w, s, sec) && t <= s.expires + w.latency
    ensures Sec(w, t) <= sec + 1
  {
    SecFacts(w, t);
  }

  /** A callback that waits for the delay comes back within the same second. */
  lemma WaitDue(w: World, s: State, t: int, r: int, done: int)
    requires Prompt(w) && Paced(w, s) && Legal(w, s, Fire(t, r, done)) && s.enabled
    requires Sec(w, t) != s.lastSec && Late(w, t) < s.delayMs * MSEC
    ensures done < Fired(w, s, t, r, done).expires && Due(w, Fired(w, s, t, r, done), s.lastSec)
  {
    SecFacts(w, t);
    NeverAhead(w, s, s.lastSec, t);
    SecMonotone(w, s.now, t);
    ForwardBound(s.expires, done, s.delayMs * MSEC - Late(w, t));
  }

  /** Any other callback comes back within the next second. */
  lemma AimDue(w: World, s: State, t: int, r: int, done: int)
    requires Prompt(w) && Paced(w, s) && Legal(w, s, Fire(t, r, done)) && s.enabled
    requires Sec(w, t) == s.lastSec || Late(w, t) >= s.delayMs * MSEC
    ensures done < Fired(w, s, t, r, done).expires && Due(w, Fired(w, s, t, r, done), Sec(w, t))
  {
    var late, delay := Late(w, t), s.delayMs * MSEC;
    var interval := NSEC_PER_SEC - late + delay + EDGE_SLACK;
    SecFacts(w, t);
    ForwardBound(s.expires, done, interval);
    if done - s.expires < interval {
      ForwardOnce(s.expires, done, interval);
    }
  }

  lemma FirePaced(w: World, s: State, t: int, r: int, done: int)
    requires Prompt(w) && Paced(w, s) && Legal(w, s, Fire(t, r, done))
    ensures Paced(w, Fired(w, s, t, r, done))
  {
    var h := Fired(w, s, t, r, done);
    SecFacts(w, t);
    SecFacts(w, done);
    SecMonotone(w, s.now, t);
    SecMonotone(w, t, done);
    if !s.enabled {
      ForwardBound(s.expires, done, IDLE_POLL);
    } else {
      NeverAhead(w, s, s.lastSec, t);
      if Sec(w, t) != s.lastSec && Late(w, t) < s.delayMs * MSEC {
        WaitDue(w, s, t, r, done);
      } else {
        AimDue(w, s, t, r, done);
      }
      NeverAhead(w, h, h.lastSec, done);
    }
  }

  /** Every legal step keeps the pace, clock adjustments and harmless restarts included. */
  lemma StepPaced(w: World, s: State, step: Step)
    requires Prompt(w) && Paced(w, s) && Legal(w, s, step)
    ensures Paced(w, Next(w, s, step))
  {
    if step.Fire? {
      FirePaced(w, s, step.t, step.r, step.done);
    } else {
      var t := if step.Clock? then step.op.t else step.t;
      SecMonotone(w, s.now, t);
      SecFacts(w, t);
      if s.enabled {
        NeverAhead(w, s, s.lastSec, t);
      }
    }
  }

  predicate LegalRun(w: World, s: State, steps: seq<Step>)
    decreases |steps|
  {
    steps == [] || (0 <= s.delayMs && Legal(w, s, steps[0]) && LegalRun(w, Next(w, s, steps[0]), steps[1..]))
  }

  function Run(w: World, s: State, steps: seq<Step>): State
    requires LegalRun(w, s, steps)
    decreases |steps|
  {
    if steps == [] then s else Run(w, Next(w, s, steps[0]), steps[1..])
  }

  lemma {:induction false} RunPaced(w: World, s: State, steps: seq<Step>)
    requires Prompt(w) && Paced(w, s) && LegalRun(w, s, steps)
    ensures Paced(w, Run(w, s, steps))
    decreases |steps|
  {
    if steps != [] {
      StepPaced(w, s, steps[0]);
      RunPaced(w, Next(w, s, steps[0]), steps[1..]);
    }
  }

  /** The state mock_phc_create leaves. */
  function Created(t: int): State {
    State(Phc(0, 0, t), false, 0, 0, t + IDLE_POLL, t, 0, 0, [])
  }

  lemma CreatedPaced(w: World, t: int)
    requires Prompt(w)
    ensures Paced(w, Created(t))
  {
    SecFacts(w, t);
  }

  /** In every run, as long as the pulses are on: exactly one event for every second after the
      enabling that is over, at most one for the current second, in order. */
  lemma OnePulsePerSecond(w: World, t: int, steps: seq<Step>)
    requires Prompt(w) && LegalRun(w, Created(t), steps) && Run(w, Created(t), steps).enabled
    ensures EveryPulse(w, Run(w, Created(t), steps))
  {
    CreatedPaced(w, t);
    RunPaced(w, Created(t), steps);
  }

  // ---- timestamps ----------------------------------------------------------------------------

  /** The pulses are not enabled anew and the clock is only read. */
  predicate Undisturbed(steps: seq<Step>) {
    forall i | 0 <= i < |steps| :: !steps[i].Enable? && (steps[i].Clock? ==> steps[i].op.GetAt?)
  }

  /** No callback takes longer than gap between reading TAI and reading the clock. */
  predicate ReadsWithin(steps: seq<Step>, gap: int) {
    forall i | 0 <= i < |steps| && steps[i].Fire? :: steps[i].r - steps[i].t <= gap
  }

  /** The clock as enabling left it: TAI plus the skew of the enabling. */
  ghost predicate Parked(w: World, s: State) {
    s.phc.freq == 0 && Shows(s.phc) == s.phc.last + w.tai + s.skew
  }

  /** A stamp is the event's second plus the delay in force, plus the skew, plus at most gap. */
  predicate StampedWithin(e: Event, skew: int, gap: int) {
    0 <= e.stamp - (e.second * NSEC_PER_SEC + e.delayMs * MSEC + skew) <= gap
  }

  /** One callback on an unadjusted clock stamps its event with the second plus the delay, plus
      only the time between its own two clock readings and the skew of the enabling. */
  lemma StampExact(w: World, s: State, t: int, r: int, done: int)
    requires 0 <= s.delayMs && Parked(w, s)
    ensures Parked(w, Fired(w, s, t, r, done))
    ensures |Fired(w, s, t, r, done).log| > |s.log| ==>
      Fired(w, s, t, r, done).log
        == s.log + [Event(Sec(w, t), Sec(w, t) * NSEC_PER_SEC + s.delayMs * MSEC + (r - t) + s.skew, s.delayMs)]
  {
    SecFacts(w, t);
  }

  lemma {:induction false} StampsWithin(w: World, s: State, steps: seq<Step>, gap: int)
    requires Parked(w, s) && Undisturbed(steps) && ReadsWithin(steps, gap) && LegalRun(w, s, steps)
    requires forall e | e in s.log :: StampedWithin(e, s.skew, gap)
    ensures forall e | e in Run(w, s, steps).log :: StampedWithin(e, s.skew, gap)
    decreases |steps|
  {
    if steps != [] {
      var s1 := Next(w, s, steps[0]);
      if steps[0].Fire? {
        StampExact(w, s, steps[0].t, steps[0].r, steps[0].done);
      }
      StampsWithin(w, s1, steps[1..], gap);
    }
  }

  /** After an enabling, until the clock is adjusted and whatever happens to the delay, each pulse
      is stamped with its TAI second plus the delay in force, off by no more than the skew of the
      enabling and the slowest pair of readings; to the nanosecond when readings take no time. */
  lemma EveryPulseExact(w: World, s: State, m: int, t: int, steps: seq<Step>, gap: int)
    requires m <= t && LegalRun(w, Enabled(w, s, m, t), steps) && Undisturbed(steps) && ReadsWithin(steps, gap)
    ensures forall e | e in Run(w, Enabled(w, s, m, t), steps).log :: StampedWithin(e, t - m, gap)
    ensures m == t && gap == 0 ==>
      forall e | e in Run(w, Enabled(w, s, m, t), steps).log :: e.stamp == e.second * NSEC_PER_SEC + e.delayMs * MSEC
  {
    StampsWithin(w, Enabled(w, s, m, t), steps, gap);
    if m == t && gap == 0 {
      forall e | e in Run(w, Enabled(w, s, m, t), steps).log
        ensures e.stamp == e.second * NSEC_PER_SEC + e.delayMs * MSEC
      {
        assert StampedWithin(e, 0, 0);
      }
    }
  }

  lemma {:induction false} StartStays(w: World, s: State, steps: seq<Step>)
    requires LegalRun(w, s, steps) && s.enabled
    requires forall i | 0 <= i < |steps| :: !steps[i].Enable? && !steps[i].Disable?
    ensures Run(w, s, steps).enabled && Run(w, s, steps).start == s.start
    decreases |steps|
  {
    if steps != [] {
      assert !steps[0].Enable? && !steps[0].Disable?;
      StartStays(w, Next(w, s, steps[0]), steps[1..]);
    }
  }

  /** Counted from an enabling at any point of any run, and until the pulses are switched off or enabled
      anew: event number i is for the i-th TAI second after the one of the enabling, and there are as
      many as seconds have passed, but for the current one. */
  lemma PulsesSinceEnabling(w: World, s: State, m: int, t: int, steps: seq<Step>)
    requires Prompt(w) && Paced(w, s) && Legal(w, s, Enable(m, t)) && LegalRun(w, Next(w, s, Enable(m, t)), steps)
    requires forall i | 0 <= i < |steps| :: !steps[i].Enable? && !steps[i].Disable?
    ensures var r, base := Run(w, Next(w, s, Enable(m, t)), steps), (t + w.tai) / 1_000_000_000;
      && (forall i | 0 <= i < |r.log| :: r.log[i].second == base + 1 + i)
      && (r.now + w.tai) / 1_000_000_000 - 1 <= base + |r.log| <= (r.now + w.tai) / 1_000_000_000
  {
    var s1 := Next(w, s, Enable(m, t));
    StepPaced(w, s, Enable(m, t));
    RunPaced(w, s1, steps);
    StartStays(w, s1, steps);
  }

  /** Without a new enabling, switched-off pulses stay off and no event comes. */
  lemma {:induction false} OffIsSilent(w: World, s: State, steps: seq<Step>)
    requires LegalRun(w, s, steps) && !s.enabled && forall i | 0 <= i < |steps| :: !steps[i].Enable?
    ensures !Run(w, s, steps).enabled && Run(w, s, steps).log == s.log
    decreases |steps|
  {
    if steps != [] {
      assert !steps[0].Enable?;
      OffIsSilent(w, Next(w, s, steps[0]), steps[1..]);
    }
  }

  /** Switching the pulses off stops them at once. */
  lemma DisabledIsSilent(w: World, s: State, t: int, steps: seq<Step>)
    requires 0 <= s.delayMs && LegalRun(w, Next(w, s, Disable(t)), steps)
    requires forall i | 0 <= i < |steps| :: !steps[i].Enable?
    ensures var r := Run(w, Next(w, s, Disable(t)), steps); !r.enabled && r.log == s.log
  {
    OffIsSilent(w, Next(w, s, Disable(t)), steps);
  }

  /** An accepted delay, of at most 900 ms, is in force until another one is written. */
  lemma {:induction false} DelayInForce(w: World, s: State, steps: seq<Step>, n: nat)
    requires LegalRun(w, s, steps) && forall i | 0 <= i < |steps| :: steps[i].Store? ==> steps[i].ms > 900
    requires n <= |s.log| && forall i | n <= i < |s.log| :: s.log[i].delayMs == s.delayMs
    requires forall i | 0 <= i < |steps| :: !steps[i].Enable?
    ensures var r := Run(w, s, steps);
      r.delayMs == s.delayMs && n <= |r.log| && forall i | n <= i < |r.log| :: r.log[i].delayMs == s.delayMs
    decreases |steps|
  {
    if steps != [] {
      assert !steps[0].Enable? && (steps[0].Store? ==> steps[0].ms > 900);
      DelayInForce(w, Next(w, s, steps[0]), steps[1..], n);
    }
  }

  lemma StoreTakesEffect(s: State, t: int, ms: nat)
    ensures Stored(s, t, ms).1 == Ok <==> ms <= 900
    ensures ms <= 900 ==> Stored(s, t, ms).0.delayMs == ms && Stored(s, t, ms).0.log == s.log
    ensures ms > 900 ==> Stored(s, t, ms).1 == ERANGE && Stored(s, t, ms).0 == s.(now := t)
    ensures ms <= 900 ==> Stored(s, t, ms).0.expires == if s.enabled then t + 1_000_000 else s.expires
  {
  }

  // ---- the bounds are exact ----------------------------------------------------------------

  lemma RunCons(w: World, s: State, step: Step, rest: seq<Step>)
    requires 0 <= s.delayMs && Legal(w, s, step) && LegalRun(w, Next(w, s, step), rest)
    ensures LegalRun(w, s, [step] + rest) && Run(w, s, [step] + rest) == Run(w, Next(w, s, step), rest)
  {
    assert ([step] + rest)[1..] == rest;
  }

  /** A monotonic time of ns nanoseconds after the start of TAI second b. */
  function At(w: World, b: int, ns: int): int { b * NSEC_PER_SEC + ns - w.tai }

  lemma SecAt(w: World, b: int, ns: int)
    ensures Sec(w, At(w, b, ns)) == b + ns / NSEC_PER_SEC && Late(w, At(w, b, ns)) == ns % NSEC_PER_SEC
  {
  }

  /** The first second of TAI that begins at a monotonic time the kernel can read. */
  function FirstSec(w: World): int {
    if w.tai > 0 then w.tai / NSEC_PER_SEC + 1 else 0
  }

  /** A run from Created in a world that is not prompt: pulses are enabled .95 s into TAI second b
      with the longest delay, and one of the following seconds is skipped. */
  function SkippingRun(w: World, b: int): seq<Step> {
    var at := (ns: int) => At(w, b, ns);
    var fire := (ns: int) => Fire(at(ns), at(ns), at(ns));
    [Store(at(950 * MSEC), MAX_DELAY_MS), Enable(at(950 * MSEC), at(950 * MSEC)), fire(1_050 * MSEC)]
    + if w.latency >= 99 * MSEC then [fire(1_900 * MSEC), fire(3_000 * MSEC)]
      else [Store(at(1_899 * MSEC - 1), MAX_DELAY_MS),
            Fire(at(1_900 * MSEC - 1), at(1_900 * MSEC - 1), at(2_000 * MSEC - 1 - w.latency)),
            fire(2_000 * MSEC)]
  }

  /** With 99 ms of latency the callback due at .901 s starts in the next second. */
  lemma LatencySkips(w: World, b: int, s: State)
    requires w.latency >= 99 * MSEC && w.duration >= 0
    requires s.enabled && s.start == b && s.lastSec == b && s.log == [] && s.delayMs == MAX_DELAY_MS
    requires s.now == At(w, b, 1_050 * MSEC) && s.expires == At(w, b, 1_900 * MSEC)
    ensures var rest := SkippingRun(w, b)[3..];
      LegalRun(w, s, rest) && Run(w, s, rest).enabled && !EveryPulse(w, Run(w, s, rest))
  {
    var f1, f2 := SkippingRun(w, b)[3], SkippingRun(w, b)[4];
    assert SkippingRun(w, b)[3..] == [f1] + ([f2] + []);
    SecAt(w, b, 1_900 * MSEC);
    SecAt(w, b, 3_000 * MSEC);
    var s1 := Next(w, s, f1);
    ForwardOnce(s.expires, s.expires, 1_001 * MSEC);
    assert s1.expires == At(w, b, 2_901 * MSEC);
    var s2 := Next(w, s1, f2);
    assert Sec(w, s2.now) == b + 3 && |s2.log| == 1;
    RunCons(w, s1, f2, []);
    RunCons(w, s, f1, [f2]);
  }

  /** With 100 ms of latency and duration together a callback that comes just before the delayed
      edge and is slow to rearm is followed by one in the next second. */
  lemma DurationSkips(w: World, b: int, s: State)
    requires 0 <= w.latency < 99 * MSEC && w.latency + w.duration >= 100 * MSEC
    requires s.enabled && s.start == b && s.lastSec == b && s.log == [] && s.delayMs == MAX_DELAY_MS
    requires s.now == At(w, b, 1_050 * MSEC) && s.expires == At(w, b, 1_900 * MSEC)
    ensures var rest := SkippingRun(w, b)[3..];
      LegalRun(w, s, rest) && Run(w, s, rest).enabled && !EveryPulse(w, Run(w, s, rest))
  {
    var f1, f2, f3 := SkippingRun(w, b)[3], SkippingRun(w, b)[4], SkippingRun(w, b)[5];
    assert SkippingRun(w, b)[3..] == [f1] + ([f2] + ([f3] + []));
    SecAt(w, b, 1_899 * MSEC - 1);
    SecAt(w, b, 1_900 * MSEC - 1);
    SecAt(w, b, 2_000 * MSEC);
    var s1 := Next(w, s, f1);
    assert s1.expires == At(w, b, 1_900 * MSEC - 1);
    var s2 := Next(w, s1, f2);
    assert s2.expires == At(w, b, 2_000 * MSEC - w.latency);
    var s3 := Next(w, s2, f3);
    assert Sec(w, s3.now) == b + 2 && s3.log == [];
    RunCons(w, s2, f3, []);
    RunCons(w, s1, f2, [f3]);
    RunCons(w, s, f1, [f2] + [f3]);
  }

  lemma SlowWorldSkips(w: World)
    requires 0 <= w.latency && 0 <= w.duration && !Prompt(w)
    ensures At(w, FirstSec(w), 950 * MSEC) >= 0
    ensures var b := FirstSec(w);
      var s := Created(At(w, b, 950 * MSEC));
      LegalRun(w, s, SkippingRun(w, b)) && Run(w, s, SkippingRun(w, b)).enabled
        && !EveryPulse(w, Run(w, s, SkippingRun(w, b)))
  {
    var b := FirstSec(w);
    var s, run := Created(At(w, b, 950 * MSEC)), SkippingRun(w, b);
    assert run == [run[0]] + ([run[1]] + ([run[2]] + run[3..]));
    SecAt(w, b, 950 * MSEC);
    SecAt(w, b, 1_050 * MSEC);
    var s1 := Next(w, s, run[0]);
    var s2 := Next(w, s1, run[1]);
    var s3 := Next(w, s2, run[2]);
    ForwardOnce(s2.expires, s2.expires, 850 * MSEC);
    assert s3.expires == At(w, b, 1_900 * MSEC);
    if w.latency >= 99 * MSEC {
      LatencySkips(w, b, s3);
    } else {
      DurationSkips(w, b, s3);
    }
    RunCons(w, s2, run[2], run[3..]);
    RunCons(w, s1, run[1], [run[2]] + run[3..]);
    RunCons(w, s, run[0], [run[1]] + ([run[2]] + run[3..]));
  }

  /** The pulses are one per second in every run of a clock created at a time the kernel can read
      exactly when callbacks start within less than 99 ms and are done within less than 100 ms. */
  lemma PromptExactly(w: World)
    requires 0 <= w.latency && 0 <= w.duration
    ensures Prompt(w) <==>
      forall t, steps | t >= 0 && LegalRun(w, Created(t), steps) && Run(w, Created(t), steps).enabled ::
        EveryPulse(w, Run(w, Created(t), steps))
  {
    if Prompt(w) {
      forall t, steps | t >= 0 && LegalRun(w, Created(t), steps) && Run(w, Created(t), steps).enabled
        ensures EveryPulse(w, Run(w, Created(t), steps))
      {
        OnePulsePerSecond(w, t, steps);
      }
    } else {
      SlowWorldSkips(w);
    }
  }

  /** A restart loses no pulse, however the run goes on, exactly when it is harmless. */
  lemma RestartExactly(w: World, s: State, t: int, ms: nat)
    requires Prompt(w) && Paced(w, s) && s.enabled && s.now <= t <= s.expires + w.latency && ms <= MAX_DELAY_MS
    ensures var s1 := Stored(s, t, ms).0;
      Harmless(w, s, t) <==>
        forall more | LegalRun(w, s1, more) && Run(w, s1, more).enabled :: EveryPulse(w, Run(w, s1, more))
  {
    var s1 := Stored(s, t, ms).0;
    if Harmless(w, s, t) {
      StepPaced(w, s, Store(t, ms));
      forall more | LegalRun(w, s1, more) && Run(w, s1, more).enabled ensures EveryPulse(w, Run(w, s1, more)) {
        RunPaced(w, s1, more);
      }
    } else {
      var late := t + EDGE_SLACK + w.latency;
      SecFacts(w, t);
      SecFacts(w, late);
      SecMonotone(w, s.now, t);
      NeverAhead(w, s, s.lastSec, t);
      var f := Fire(late, late, late);
      RunCons(w, s1, f, []);
      var s2 := Next(w, s1, f);
      assert Run(w, s1, [f] + []) == s2;
      assert Sec(w, late) >= s.lastSec + 2;
      if s2.log != s1.log {
        assert s2.log[|s1.log|].second == Sec(w, late);
      }
      assert !EveryPulse(w, s2);
    }
  }

  /** A second that is over without its event never gets it, short of a new enabling. */
  lemma {:induction false} LostForGood(w: World, s: State, steps: seq<Step>, second: int)
    requires LegalRun(w, s, steps) && forall i | 0 <= i < |steps| :: !steps[i].Enable?
    requires second < Sec(w, s.now) && forall e | e in s.log :: e.second != second
    ensures forall e | e in Run(w, s, steps).log :: e.second != second
    decreases |steps|
  {
    if steps != [] {
      var step := steps[0];
      SecMonotone(w, s.now, if step.Clock? then step.op.t else step.t);
      SecMonotone(w, s.now, Next(w, s, step).now);
      LostForGood(w, Next(w, s, step), steps[1..], second);
    }
  }
}
