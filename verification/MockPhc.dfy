/** The mock PTP hardware clock (ptp/ptp_mock.c) and the core entry point that adjusts it
    (ptp/ptp_clock.c).  The clock is the monotonic time plus an offset, to which every reading
    adds the drift of the dialled frequency, in whole nanoseconds. */
module MockPhc {
  import opened Prelude
  import opened CInts

  const NSEC_PER_SEC: int := 1_000_000_000
  const MAX_ADJ_PPB: int := 500_000_000

  /** offset_ns, freq_ppb, last_mono_ns. */
  datatype Phc = Phc(offset: int, freq: int, last: int)

  // ---- one reading ---------------------------------------------------------------------

  /** The drift accumulated over elapsed; the product is computed in 64 bits. */
  function Drift(elapsed: int, freq: int): int {
    if elapsed > 0 && freq != 0 then TruncDiv(ToS64(elapsed * freq), NSEC_PER_SEC) else 0
  }

  function Read(s: Phc, raw: int): Phc {
    s.(offset := s.offset + Drift(raw - s.last, s.freq), last := raw)
  }

  /** The time a reading returns, and the clock shows after one. */
  function Shows(s: Phc): int { s.last + s.offset }

  function AdjFine(s: Phc, raw: int, scaledPpm: int): Phc {
    Read(s, raw).(freq := DriverPpb(scaledPpm))
  }

  function AdjTime(s: Phc, raw: int, delta: int): Phc {
    var r := Read(s, raw);
    r.(offset := r.offset + delta)
  }

  function SetTime(raw: int, ns: int): Phc { Phc(ns - raw, 0, raw) }

  /** The driver's scaled ppm to ppb: truncation of scaled * 1000 / 2^16. */
  function DriverPpb(scaledPpm: int): int {
    TruncDiv(ToS64(scaledPpm * 1000), 65536)
  }

  /** The core's: floor of (1 + scaled) * 125 / 2^13. */
  function CorePpb(scaledPpm: int): int {
    ToS64(ToS64(1 + scaledPpm) * 125) / 8192
  }

  predicate Accepted(scaledPpm: int) {
    -MAX_ADJ_PPB <= CorePpb(scaledPpm) <= MAX_ADJ_PPB
  }

  /** Whatever 64-bit frequency the core accepts, the driver dials within its limit and within
      one ppb of what the core checked, although the two round differently and although both
      products may wrap around: 1000 is 8 times 125, so they wrap together. */
  lemma AcceptedIsBounded(scaledPpm: int)
    requires FitsS64(scaledPpm) && Accepted(scaledPpm)
    ensures -MAX_ADJ_PPB <= DriverPpb(scaledPpm) <= MAX_ADJ_PPB
    ensures CorePpb(scaledPpm) - 1 <= DriverPpb(scaledPpm) <= CorePpb(scaledPpm) + 1
  {
    var u := ToS64(1 + scaledPpm);
    var w := ToS64(u * 125);
    ToS64Facts(1 + scaledPpm);
    ToS64Facts(u * 125);
    var j := (u - (1 + scaledPpm)) / TWO_TO_THE_64;
    var k := (w - u * 125) / TWO_TO_THE_64;
    assert u == 1 + scaledPpm + j * TWO_TO_THE_64;
    assert w == u * 125 + k * TWO_TO_THE_64;
    var ppb := w / 8192;
    assert ppb * 8192 <= w < ppb * 8192 + 8192;
    var v := 8 * w - 1000;
    assert scaledPpm * 1000 == v + (-8 * (125 * j + k)) * TWO_TO_THE_64;
    ToS64Unique(scaledPpm * 1000, v, -8 * (125 * j + k));
    TruncDivBounds(v, 65536);
  }

  /** Which frequencies are accepted, where the core's product does not wrap: the scaled values of up to
      500 000 000 parts per billion either way. */
  lemma AcceptedExactly(scaledPpm: int)
    requires FitsS64(1 + scaledPpm) && FitsS64((1 + scaledPpm) * 125)
    ensures Accepted(scaledPpm) <==> -32_768_000_001 <= scaledPpm <= 32_768_000_064
    ensures 8192 * CorePpb(scaledPpm) <= 125 * (1 + scaledPpm) < 8192 * CorePpb(scaledPpm) + 8192
  {
    ToS64Facts(1 + scaledPpm);
    ToS64Facts((1 + scaledPpm) * 125);
  }

  /** Where the driver's product does not wrap it dials the scaled value cut towards zero. */
  lemma DialledExactly(scaledPpm: int)
    requires FitsS64(scaledPpm * 1000)
    ensures var ppb := DriverPpb(scaledPpm);
      if scaledPpm >= 0 then 65536 * ppb <= 1000 * scaledPpm < 65536 * ppb + 65536
      else 65536 * ppb - 65536 < 1000 * scaledPpm <= 65536 * ppb
  {
    ToS64Facts(scaledPpm * 1000);
    TruncDivBounds(scaledPpm * 1000, 65536);
  }

  /** A reading's drift is right to less than a nanosecond exactly when the product fits 64 bits. */
  lemma DriftAccurate(elapsed: int, freq: int)
    requires elapsed > 0
    ensures -NSEC_PER_SEC < Drift(elapsed, freq) * NSEC_PER_SEC - elapsed * freq < NSEC_PER_SEC
       <==> FitsS64(elapsed * freq)
  {
    var p := elapsed * freq;
    ToS64Facts(p);
    TruncDivBounds(ToS64(p), NSEC_PER_SEC);
    if freq == 0 {
      assert p == 0;
    } else if !FitsS64(p) {
      var k := (ToS64(p) - p) / TWO_TO_THE_64;
      assert ToS64(p) - p == k * TWO_TO_THE_64;
      assert k != 0;
      assert k >= 1 || k <= -1;
    }
  }

  lemma ProductBound(elapsed: int, freq: int)
    requires elapsed >= 0 && -MAX_ADJ_PPB <= freq <= MAX_ADJ_PPB
    ensures -(elapsed * MAX_ADJ_PPB) <= elapsed * freq <= elapsed * MAX_ADJ_PPB
  {
    MulMonotone(elapsed, freq, MAX_ADJ_PPB);
    MulMonotone(elapsed, -MAX_ADJ_PPB, freq);
  }

  /** The longest gap between readings over which every dialled frequency stays accurate;
      one nanosecond more and the extreme frequencies do not. */
  const MAX_GAP: int := 18_446_744_073

  lemma GapIsExact()
    ensures forall elapsed, freq | 0 < elapsed <= MAX_GAP && -MAX_ADJ_PPB <= freq <= MAX_ADJ_PPB ::
      FitsS64(elapsed * freq)
    ensures !FitsS64((MAX_GAP + 1) * MAX_ADJ_PPB)
  {
    forall elapsed, freq | 0 < elapsed <= MAX_GAP && -MAX_ADJ_PPB <= freq <= MAX_ADJ_PPB
      ensures FitsS64(elapsed * freq)
    {
      ProductBound(elapsed, freq);
    }
  }

  /** Over any gap whatever, wrap-around included, a clock within the frequency limit drifts by
      at most half the elapsed time. */
  lemma DriftBound(elapsed: int, freq: int)
    requires elapsed >= 0 && -MAX_ADJ_PPB <= freq <= MAX_ADJ_PPB
    ensures -elapsed <= 2 * Drift(elapsed, freq) <= elapsed
  {
    if elapsed > 0 && freq != 0 {
      var p := elapsed * freq;
      ProductBound(elapsed, freq);
      ToS64Facts(p);
      TruncDivBounds(ToS64(p), NSEC_PER_SEC);
    }
  }

  // ---- runs ---------------------------------------------------------------------------------

  datatype Op = GetAt(t: int) | AdjFineAt(t: int, scaledPpm: int) | AdjTimeAt(t: int, delta: int)
    | SetAt(t: int, ns: int)

  function Do(s: Phc, op: Op): Phc {
    match op
    case GetAt(t) => Read(s, t)
    case AdjFineAt(t, ppm) => AdjFine(s, t, ppm)
    case AdjTimeAt(t, d) => AdjTime(s, t, d)
    case SetAt(t, ns) => SetTime(t, ns)
  }

  function DoAll(s: Phc, ops: seq<Op>): Phc
    decreases |ops|
  {
    if ops == [] then s else DoAll(Do(s, ops[0]), ops[1..])
  }

  /** Monotonic time never runs back, and frequencies come through the core's check. */
  predicate Timely(last: int, ops: seq<Op>)
    decreases |ops|
  {
    ops == [] || (last <= ops[0].t && (ops[0].AdjFineAt? ==> FitsS64(ops[0].scaledPpm) && Accepted(ops[0].scaledPpm))
                  && Timely(ops[0].t, ops[1..]))
  }

  /** No two consecutive operations are further apart than MAX_GAP. */
  predicate Frequent(last: int, ops: seq<Op>)
    decreases |ops|
  {
    ops == [] || (ops[0].t - last <= MAX_GAP && Frequent(ops[0].t, ops[1..]))
  }

  predicate WithinLimit(s: Phc) { -MAX_ADJ_PPB <= s.freq <= MAX_ADJ_PPB }

  lemma DoKeepsLimit(s: Phc, op: Op)
    requires WithinLimit(s) && (op.AdjFineAt? ==> FitsS64(op.scaledPpm) && Accepted(op.scaledPpm))
    ensures WithinLimit(Do(s, op)) && Do(s, op).last == op.t
  {
    if op.AdjFineAt? {
      AcceptedIsBounded(op.scaledPpm);
    }
  }

  /** The ideal clock: piecewise linear in rational time, kept in units of 10^-9 ns. */
  datatype Ideal = Ideal(value: int, freq: int, last: int)

  function IdealAt(c: Ideal, t: int): int { c.value + (t - c.last) * (NSEC_PER_SEC + c.freq) }

  function DoIdeal(c: Ideal, op: Op): Ideal {
    match op
    case GetAt(t) => Ideal(IdealAt(c, t), c.freq, t)
    case AdjFineAt(t, ppm) => Ideal(IdealAt(c, t), DriverPpb(ppm), t)
    case AdjTimeAt(t, d) => Ideal(IdealAt(c, t) + d * NSEC_PER_SEC, c.freq, t)
    case SetAt(t, ns) => Ideal(ns * NSEC_PER_SEC, 0, t)
  }

  function DoAllIdeal(c: Ideal, ops: seq<Op>): Ideal
    decreases |ops|
  {
    if ops == [] then c else DoAllIdeal(DoIdeal(c, ops[0]), ops[1..])
  }

  /** The clock is off the ideal one by less than one ns per reading made, n of them. */
  ghost predicate Tracks(s: Phc, c: Ideal, n: nat) {
    && s.last == c.last && s.freq == c.freq
    && -(n * (NSEC_PER_SEC - 1)) <= Shows(s) * NSEC_PER_SEC - c.value <= n * (NSEC_PER_SEC - 1)
  }

  lemma ReadTracks(s: Phc, c: Ideal, n: nat, t: int)
    requires Tracks(s, c, n) && WithinLimit(s) && s.last <= t <= s.last + MAX_GAP
    ensures Tracks(Read(s, t), Ideal(IdealAt(c, t), c.freq, t), n + 1)
  {
    var e := t - s.last;
    if e > 0 {
      GapIsExact();
      DriftAccurate(e, s.freq);
    }
    assert IdealAt(c, t) == c.value + e * NSEC_PER_SEC + e * c.freq;
    assert Shows(Read(s, t)) == Shows(s) + e + Drift(e, s.freq);
  }

  lemma DoTracks(s: Phc, c: Ideal, n: nat, op: Op)
    requires Tracks(s, c, n) && WithinLimit(s) && s.last <= op.t <= s.last + MAX_GAP
    ensures Tracks(Do(s, op), DoIdeal(c, op), if op.SetAt? then 0 else n + 1)
  {
    if !op.SetAt? {
      ReadTracks(s, c, n, op.t);
    }
  }

  /** Readings made since the clock was last set. */
  function Readings(n: nat, ops: seq<Op>): nat
    decreases |ops|
  {
    if ops == [] then n else Readings(if ops[0].SetAt? then 0 else n + 1, ops[1..])
  }

  /** Under any interleaving of readings, offsets, frequencies and settings, the clock differs
      from the exact rational clock by less than one nanosecond per reading since it was set. */
  lemma {:induction false} RunTracks(s: Phc, c: Ideal, n: nat, ops: seq<Op>)
    requires Tracks(s, c, n) && WithinLimit(s) && Timely(s.last, ops) && Frequent(s.last, ops)
    ensures Tracks(DoAll(s, ops), DoAllIdeal(c, ops), Readings(n, ops))
    decreases |ops|
  {
    if ops != [] {
      DoTracks(s, c, n, ops[0]);
      DoKeepsLimit(s, ops[0]);
      RunTracks(Do(s, ops[0]), DoIdeal(c, ops[0]), if ops[0].SetAt? then 0 else n + 1, ops[1..]);
    }
  }

  /** Only readings and frequency changes. */
  predicate Undisturbed(ops: seq<Op>)
    decreases |ops|
  {
    ops == [] || ((ops[0].GetAt? || ops[0].AdjFineAt?) && Undisturbed(ops[1..]))
  }

  /** Left to readings and accepted frequencies the clock never runs backwards: over elapsed
      time e it advances between e/2 and 3e/2, however far apart the readings are. */
  lemma {:induction false} RunAdvances(s: Phc, ops: seq<Op>)
    requires WithinLimit(s) && Timely(s.last, ops) && Undisturbed(ops)
    ensures var r, e := DoAll(s, ops), DoAll(s, ops).last - s.last;
      e >= 0 && e <= 2 * (Shows(r) - Shows(s)) <= 3 * e
    decreases |ops|
  {
    if ops != [] {
      DriftBound(ops[0].t - s.last, s.freq);
      DoKeepsLimit(s, ops[0]);
      RunAdvances(Do(s, ops[0]), ops[1..]);
    }
  }

  predicate OnlyReadings(ops: seq<Op>)
    decreases |ops|
  {
    ops == [] || (ops[0].GetAt? && OnlyReadings(ops[1..]))
  }

  lemma {:induction false} ReadingsKeepTime(s: Phc, ops: seq<Op>)
    requires s.freq == 0 && OnlyReadings(ops)
    ensures Shows(DoAll(s, ops)) == Shows(s) + (DoAll(s, ops).last - s.last)
    decreases |ops|
  {
    if ops != [] {
      ReadingsKeepTime(Do(s, ops[0]), ops[1..]);
    }
  }

  /** Set at raw to ns after whatever went before, then read any number of times: the last reading
      is the set time plus the time elapsed since. */
  lemma SetThenGet(s: Phc, raw: int, ns: int, ops: seq<Op>)
    requires OnlyReadings(ops)
    ensures var r := DoAll(s, [SetAt(raw, ns)] + ops);
      Shows(r) == ns + (r.last - raw) && (ops != [] ==> r.last == ops[|ops| - 1].t)
  {
    assert ([SetAt(raw, ns)] + ops)[1..] == ops;
    ReadingsKeepTime(SetTime(raw, ns), ops);
    LastReading(SetTime(raw, ns), ops);
  }

  lemma {:induction false} LastReading(s: Phc, ops: seq<Op>)
    requires OnlyReadings(ops)
    ensures DoAll(s, ops).last == if ops == [] then s.last else ops[|ops| - 1].t
    decreases |ops|
  {
    if ops != [] {
      LastReading(Do(s, ops[0]), ops[1..]);
    }
  }

  /** A frequency change does not make the clock jump: read at the same instant before or after,
      it shows the same time; an offset moves it by exactly the offset. */
  lemma AdjustmentsAtAnInstant(s: Phc, raw: int, scaledPpm: int, delta: int, ns: int)
    ensures Shows(Read(AdjFine(s, raw, scaledPpm), raw)) == Shows(Read(s, raw))
    ensures Shows(Read(AdjTime(s, raw, delta), raw)) == Shows(Read(s, raw)) + delta
    ensures Shows(Read(SetTime(raw, ns), raw)) == ns
  {
  }
}
