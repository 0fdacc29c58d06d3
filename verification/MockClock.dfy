/** The mock clock as an object (ptp/ptp_mock.c), and the core's adjustment call on it
    (ptp/ptp_clock.c).  Clock readings are parameters; phc->lock makes each method atomic. */
module MockClock {
  import opened Prelude
  import opened CInts
  import opened MockPhc
  import Extts

  class Clock {
    const world: Extts.World
    var offsetNs: int
    var freqPpb: int
    var lastMonoNs: int
    var exttsEnabled: bool
    var lastExttsSec: int
    var exttsDelayMs: nat
    /** When the pulse timer is due. */
    var expires: int
    /** The events handed to ptp_clock_event since the pulses were enabled. */
    var log: seq<Extts.Event>
    ghost var now: int
    ghost var start: int
    ghost var skew: int

    /** mock_phc_create at monotonic time t. */
    constructor (world: Extts.World, t: int)
      ensures this.world == world && View() == Extts.Created(t)
    {
      this.world := world;
      offsetNs, freqPpb, lastMonoNs := 0, 0, t;
      exttsEnabled, lastExttsSec, exttsDelayMs, expires, log := false, 0, 0, t + Extts.IDLE_POLL, [];
      now, start, skew := t, 0, 0;
    }

    function Phc(): Phc
      reads this
    {
      MockPhc.Phc.Phc(offsetNs, freqPpb, lastMonoNs)
    }

    ghost function View(): Extts.State
      reads this
    {
      Extts.State(Phc(), exttsEnabled, lastExttsSec, exttsDelayMs, expires, now, start, skew, log)
    }

    /** mock_phc_read_locked. */
    method ReadLocked(raw: int) returns (ns: int)
      modifies this`offsetNs, this`lastMonoNs
      ensures Phc() == Read(old(Phc()), raw) && ns == Shows(Phc())
    {
      var elapsed := raw - lastMonoNs;
      if elapsed > 0 && freqPpb != 0 {
        var drift := TruncDiv(ToS64(elapsed * freqPpb), NSEC_PER_SEC);
        offsetNs := offsetNs + drift;
      }
      lastMonoNs := raw;
      return raw + offsetNs;
    }

    /** mock_phc_adjfine. */
    method AdjFine(raw: int, scaledPpm: int)
      modifies this`offsetNs, this`lastMonoNs, this`freqPpb, this`now
      ensures View() == Extts.Next(world, old(View()), Extts.Clock(AdjFineAt(raw, scaledPpm)))
    {
      var _ := ReadLocked(raw);
      now := raw;
      freqPpb := TruncDiv(ToS64(scaledPpm * 1000), 65536);
    }

    /** mock_phc_adjtime. */
    method AdjTime(raw: int, delta: int)
      modifies this`offsetNs, this`lastMonoNs, this`now
      ensures View() == Extts.Next(world, old(View()), Extts.Clock(AdjTimeAt(raw, delta)))
    {
      var _ := ReadLocked(raw);
      now := raw;
      offsetNs := offsetNs + delta;
    }

    /** mock_phc_settime64. */
    method SetTime(raw: int, ns: int)
      modifies this`offsetNs, this`lastMonoNs, this`freqPpb, this`now
      ensures View() == Extts.Next(world, old(View()), Extts.Clock(SetAt(raw, ns)))
    {
      now := raw;
      lastMonoNs := raw;
      offsetNs := ns - raw;
      freqPpb := 0;
    }

    /** mock_phc_gettime64. */
    method GetTime(raw: int) returns (ns: int)
      modifies this`offsetNs, this`lastMonoNs, this`now
      ensures View() == Extts.Next(world, old(View()), Extts.Clock(GetAt(raw)))
      ensures ns == Shows(Phc())
    {
      ns := ReadLocked(raw);
      now := raw;
    }

    /** hrtimer_forward_now on the pulse timer. */
    method ForwardNow(at: int, interval: int)
      requires interval > 0
      modifies this`expires
      ensures expires == Extts.Forward(old(expires), at, interval)
    {
      if at >= expires {
        expires := expires + ((at - expires) / interval + 1) * interval;
      }
    }

    /** mock_phc_extts_timer: TAI is read at t, the clock at r, the timer is moved at done. */
    method ExttsTimer(t: int, r: int, done: int)
      modifies this
      ensures View() == Extts.Fired(world, old(View()), t, r, done)
    {
      var delayNs := exttsDelayMs * Extts.MSEC;
      now := done;
      if !exttsEnabled {
        ForwardNow(done, Extts.IDLE_POLL);
        return;
      }
      var taiNs := t + world.tai;
      var taiSec := taiNs / NSEC_PER_SEC;
      var lateNs := taiNs - taiSec * NSEC_PER_SEC;
      if taiSec != lastExttsSec {
        if lateNs < delayNs {
          ForwardNow(done, delayNs - lateNs);
          return;
        }
        lastExttsSec := taiSec;
        var phcNs := ReadLocked(r);
        log := log + [Extts.Event(taiSec, phcNs - (lateNs - delayNs), exttsDelayMs)];
      }
      var nextDelta := (NSEC_PER_SEC - lateNs) + delayNs + Extts.EDGE_SLACK;
      if nextDelta < Extts.EDGE_SLACK {
        nextDelta := Extts.EDGE_SLACK;
      }
      ForwardNow(done, nextDelta);
    }

    /** mock_phc_enable for external timestamps; index is the requested channel of n_ext_ts = 1. */
    method Enable(index: nat, on: bool, m: int, t: int) returns (e: Errno)
      modifies this
      ensures index >= 1 ==> e == EINVAL && View() == old(View())
      ensures index < 1 ==>
        e == Ok && View() == Extts.Next(world, old(View()), if on then Extts.Enable(m, t) else Extts.Disable(t))
    {
      if index >= 1 {
        return EINVAL;
      }
      if on {
        lastMonoNs := m;
        offsetNs := t + world.tai - m;
        freqPpb := 0;
        lastExttsSec := (t + world.tai) / NSEC_PER_SEC;
        start, skew, log := lastExttsSec, t - m, [];
        exttsEnabled := true;
      } else {
        exttsEnabled := false;
      }
      now := t;
      return Ok;
    }

    /** extts_delay_ms_store of a number. */
    method DelayStore(ms: nat, t: int) returns (e: Errno)
      modifies this
      ensures (View(), e) == Extts.Stored(old(View()), t, ms)
    {
      now := t;
      if ms > Extts.MAX_DELAY_MS {
        return ERANGE;
      }
      exttsDelayMs := ms;
      if exttsEnabled {
        expires := t + Extts.EDGE_SLACK;
      }
      return Ok;
    }
  }

  datatype Mode = SetOffset | Frequency | Offset | Nano | Other

  /** The fields of struct timex the call looks at. */
  datatype Timex = Timex(modes: set<Mode>, sec: int, usec: int, freq: int)

  class PtpClock {
    const clock: Clock
    /** Virtual clocks on top: the physical clock must run free. */
    var freeRunning: bool
    var dialedFrequency: int

    constructor (clock: Clock)
      ensures this.clock == clock && !freeRunning && dialedFrequency == 0
    {
      this.clock, freeRunning, dialedFrequency := clock, false, 0;
    }

    /** ptp_clock_adjtime on a mock clock, whose driver has no phase adjustment; ktime is the kernel's
        conversion of seconds and nanoseconds. */
    method AdjTime(tx: Timex, raw: int, ktime: (int, int) -> int) returns (e: Errno, freq: int)
      requires FitsS64(tx.freq)
      modifies this`dialedFrequency, clock`offsetNs, clock`lastMonoNs, clock`freqPpb, clock`now
      ensures e != Ok ==> clock.Phc() == old(clock.Phc()) && dialedFrequency == old(dialedFrequency)
      ensures freeRunning ==> e == EBUSY
      ensures !freeRunning && SetOffset in tx.modes ==>
        var nsec := if Nano in tx.modes then tx.usec else ToS64(tx.usec * 1000);
        if 0 <= nsec < NSEC_PER_SEC
        then e == Ok && clock.Phc() == MockPhc.AdjTime(old(clock.Phc()), raw, ktime(tx.sec, nsec))
        else e == EINVAL
      ensures !freeRunning && SetOffset !in tx.modes && Frequency in tx.modes ==>
        if Accepted(tx.freq)
        then e == Ok && clock.Phc() == MockPhc.AdjFine(old(clock.Phc()), raw, tx.freq) && dialedFrequency == tx.freq
        else e == ERANGE
      ensures !freeRunning && SetOffset !in tx.modes && Frequency !in tx.modes && tx.modes != {} ==> e == EOPNOTSUPP
      ensures !freeRunning && tx.modes == {} ==> e == Ok && freq == dialedFrequency && clock.Phc() == old(clock.Phc())
      ensures WithinLimit(old(clock.Phc())) ==> WithinLimit(clock.Phc())
    {
      e, freq := EOPNOTSUPP, tx.freq;
      if freeRunning {
        return EBUSY, freq;
      }
      if SetOffset in tx.modes {
        var nsec := tx.usec;
        if Nano !in tx.modes {
          nsec := ToS64(nsec * 1000);
        }
        if nsec < 0 || nsec >= NSEC_PER_SEC {
          return EINVAL, freq;
        }
        clock.AdjTime(raw, ktime(tx.sec, nsec));
        e := Ok;
      } else if Frequency in tx.modes {
        var ppb := ToS64(ToS64(1 + tx.freq) * 125) / 8192;
        if ppb > MAX_ADJ_PPB || ppb < -MAX_ADJ_PPB {
          return ERANGE, freq;
        }
        AcceptedIsBounded(tx.freq);
        clock.AdjFine(raw, tx.freq);
        dialedFrequency := tx.freq;
        e := Ok;
      } else if tx.modes == {} {
        freq := dialedFrequency;
        e := Ok;
      }
    }
  }
}
