/** The lock status of the simulated receiver (netdevsim/dpll.c): raw writes, sysfs writes and the
    holdover timer drive one state; what it is follows from the history alone. */
module GnssLock {
  import opened Prelude
  import Nmea
  import Ubx

  const SECOND: nat := 1_000_000_000
  const HOLDOVER: nat := 30 * SECOND
  const NO_FIX: nat := 0
  const DEAD_RECKONING: nat := 1
  const FIX_3D: nat := 3
  const VALSET_MIN: nat := Ubx.HDR_LEN + Ubx.VALSET_HDR_LEN + 5

  datatype Lock = Unlocked | LockedHoAcq | Holdover

  /** timer holds the absolute expiry, in nanoseconds, of an armed holdover timer. */
  datatype State = State(lock: Lock, blocked: bool, fix: nat, timer: Option<nat>)

  const INITIAL: State := State(LockedHoAcq, false, FIX_3D, None)

  // ---- inputs ---------------------------------------------------------------------------

  /** What a raw write says about reception. */
  datatype Signal = Fix(quality: nat) | Masked | Unmasked | Silent

  predicate IsValset(buf: seq<Byte>) {
    |buf| >= VALSET_MIN && Ubx.SyncAt(buf, 0) && buf[2] == Ubx.CLASS_CFG && buf[3] == Ubx.CFG_VALSET
  }

  function SignalOf(buf: seq<Byte>): Signal {
    if buf != [] && buf[0] == Nmea.DOLLAR then
      match Nmea.GgaQuality(buf)
      case None => Silent
      case Some(q) => Fix(q)
    else if IsValset(buf) then
      match Ubx.Valset(buf)
      case None => Silent
      case Some(v) => if v > 0 then Masked else Unmasked
    else Silent
  }

  /** sysfs_streq against the three accepted words: one trailing newline is ignored. */
  function Choice(buf: string): Option<Lock> {
    var word := CString(buf);
    if word == "locked" || word == "locked\n" then Some(LockedHoAcq)
    else if word == "holdover" || word == "holdover\n" then Some(Holdover)
    else if word == "freerun" || word == "freerun\n" then Some(Unlocked)
    else None
  }

  datatype Event =
    | Written(at: nat, buf: seq<Byte>)
    | Chosen(at: nat, word: string)
    | Expired(at: nat)
    | Shown(at: nat)

  // ---- the machine ------------------------------------------------------------------------

  function GpsFix(quality: nat): nat {
    if quality == 0 then NO_FIX else if quality == 6 then DEAD_RECKONING else FIX_3D
  }

  function EnterHoldover(s: State, now: nat): State {
    s.(lock := Holdover, timer := Some(now + HOLDOVER))
  }

  function EnterLocked(s: State): State {
    s.(lock := LockedHoAcq, timer := None)
  }

  function OnSignal(s: State, sig: Signal, now: nat): State {
    match sig
    case Silent => s
    case Masked => EnterHoldover(s.(blocked := true, fix := NO_FIX), now)
    case Unmasked => EnterLocked(s.(blocked := false, fix := FIX_3D))
    case Fix(q) =>
      if s.blocked then s
      else
        var t := s.(fix := GpsFix(q));
        if t.fix == NO_FIX && s.fix != NO_FIX then EnterHoldover(t, now)
        else if t.fix != NO_FIX && (s.fix == NO_FIX || s.lock != LockedHoAcq) then EnterLocked(t)
        else t
  }

  function OnWord(s: State, word: string, now: nat): State {
    match Choice(word)
    case None => s
    case Some(lock) =>
      if s.blocked || s.fix == NO_FIX then s
      else if lock == Holdover then EnterHoldover(s, now)
      else if lock == LockedHoAcq then EnterLocked(s)
      else s.(lock := lock, timer := None)
  }

  function OnTimer(s: State): State {
    s.(timer := None,
       lock := if s.lock == Holdover && (s.fix == NO_FIX || s.blocked) then Unlocked else s.lock)
  }

  function Apply(s: State, e: Event): State {
    match e
    case Written(at, buf) => OnSignal(s, SignalOf(buf), at)
    case Chosen(at, word) => OnWord(s, word, at)
    case Expired(_) => OnTimer(s)
    case Shown(_) => s
  }

  function Last(es: seq<Event>): Event
    requires es != []
  {
    es[|es| - 1]
  }

  function Front(es: seq<Event>): seq<Event>
    requires es != []
  {
    es[..|es| - 1]
  }

  /** The state after a history of events. */
  function Run(es: seq<Event>): State
    decreases |es|
  {
    if es == [] then INITIAL else Apply(Run(Front(es)), Last(es))
  }

  function Now(es: seq<Event>): nat {
    if es == [] then 0 else Last(es).at
  }

  /** Time does not go back, and an armed timer is served between its expiry and latency later. */
  predicate Legal(es: seq<Event>, latency: nat)
    decreases |es|
  {
    es == []
    || (Legal(Front(es), latency) && Now(Front(es)) <= Now(es)
        && match Run(Front(es)).timer
           case None => !Last(es).Expired?
           case Some(x) => (Last(es).Expired? ==> x <= Now(es)) && Now(es) <= x + latency)
  }

  // ---- what a history means ------------------------------------------------------------------

  /** A mask is in force: the last configuration write that named the key set it. */
  predicate Blocked(es: seq<Event>)
    decreases |es|
  {
    es != []
    && match Last(es)
       case Written(_, buf) =>
         (match SignalOf(buf)
          case Masked => true
          case Unmasked => false
          case _ => Blocked(Front(es)))
       case _ => Blocked(Front(es))
  }

  /** Reception is lost: masked, or the last fix reported outside a mask was none. */
  predicate Lost(es: seq<Event>)
    decreases |es|
  {
    es != []
    && match Last(es)
       case Written(_, buf) =>
         (match SignalOf(buf)
          case Masked => true
          case Unmasked => false
          case Fix(q) => if Blocked(Front(es)) then true else q == 0
          case Silent => Lost(Front(es)))
       case _ => Lost(Front(es))
  }

  /** When the loss in force began; a mask restarts it. */
  function LostSince(es: seq<Event>): nat
    decreases |es|
  {
    if es == [] then 0
    else
      match Last(es)
      case Written(at, buf) =>
        (match SignalOf(buf)
         case Masked => at
         case Fix(q) => if q == 0 && !Lost(Front(es)) then at else LostSince(Front(es))
         case _ => LostSince(Front(es)))
      case _ => LostSince(Front(es))
  }

  /** The status that applies while reception is good: the last word or restored fix. */
  function Selected(es: seq<Event>): Lock
    decreases |es|
  {
    if es == [] then LockedHoAcq
    else
      match Last(es)
      case Written(_, buf) =>
        (match SignalOf(buf)
         case Unmasked => LockedHoAcq
         case Fix(q) => if q != 0 && !Blocked(Front(es)) then LockedHoAcq else Selected(Front(es))
         case _ => Selected(Front(es)))
      case Chosen(_, word) =>
        if Lost(Front(es)) || Choice(word).None? then Selected(Front(es)) else Choice(word).value
      case _ => Selected(Front(es))
  }

  /** How the machine's state relates to its history. */
  predicate Means(s: State, es: seq<Event>) {
    && s.blocked == Blocked(es)
    && (s.fix == NO_FIX) == Lost(es)
    && (s.blocked ==> s.fix == NO_FIX)
    && s.fix in {NO_FIX, DEAD_RECKONING, FIX_3D}
    && (s.timer.Some? ==> s.lock == Holdover && s.timer.value <= Now(es) + HOLDOVER)
    && (!Lost(es) ==> s.lock == Selected(es))
    && (Lost(es) ==>
          LostSince(es) <= Now(es)
          && ((s.lock == Holdover && s.timer == Some(LostSince(es) + HOLDOVER))
              || (s.lock == Unlocked && s.timer == None && LostSince(es) + HOLDOVER <= Now(es))))
  }

  /** Every reachable state is the one its history means. */
  lemma {:induction false} HistoryDecides(es: seq<Event>, latency: nat)
    requires Legal(es, latency)
    ensures Means(Run(es), es)
    decreases |es|
  {
    if es != [] {
      HistoryDecides(Front(es), latency);
    }
  }

  /** An unrestored loss coasts for thirty seconds and is free-running once the timer has had
      time to be served. */
  lemma OutageTimeline(es: seq<Event>, latency: nat)
    requires Legal(es, latency) && Lost(es)
    ensures Now(es) < LostSince(es) + 30_000_000_000 ==> Run(es).lock == Holdover
    ensures Now(es) > LostSince(es) + 30_000_000_000 + latency ==> Run(es).lock == Unlocked
    ensures Run(es).lock == Unlocked <==> Run(es).timer == None
  {
    HistoryDecides(es, latency);
    if Run(es).lock == Holdover {
      HistoryDecides(Front(es), latency);
    }
  }

  /** Good reception, unless a word chose otherwise since, is locked with the timer off. */
  lemma RestoredIsLocked(es: seq<Event>, latency: nat)
    requires Legal(es, latency) && !Lost(es) && Selected(es) == LockedHoAcq
    ensures Run(es) == State(LockedHoAcq, false, Run(es).fix, None) && Run(es).fix != NO_FIX
  {
    HistoryDecides(es, latency);
  }

  /** The fix a history leaves: none under a mask or a reported quality 0, dead reckoning (1) for quality
      6, and 3D (3) for any other quality and after a cleared mask. */
  function FixAfter(es: seq<Event>): nat
    decreases |es|
  {
    if es == [] then 3
    else
      match Last(es)
      case Written(_, buf) =>
        (match SignalOf(buf)
         case Masked => 0
         case Unmasked => 3
         case Fix(q) => if Blocked(Front(es)) then 0 else if q == 0 then 0 else if q == 6 then 1 else 3
         case Silent => FixAfter(Front(es)))
      case _ => FixAfter(Front(es))
  }

  lemma {:induction false} FixFollows(es: seq<Event>, latency: nat)
    requires Legal(es, latency)
    ensures Run(es).fix == FixAfter(es)
    decreases |es|
  {
    HistoryDecides(es, latency);
    if es != [] {
      FixFollows(Front(es), latency);
      HistoryDecides(Front(es), latency);
    }
  }

  /** The words, and what each does while reception is good; any other text is refused. */
  lemma WordsTakeEffect(es: seq<Event>, at: nat, buf: string, latency: nat)
    requires Legal(es + [Chosen(at, buf)], latency) && !Lost(es)
    ensures var s, word := Run(es + [Chosen(at, buf)]), CString(buf);
      && (word in {"locked", "locked\n"} ==> s.lock == LockedHoAcq && s.timer == None)
      && (word in {"holdover", "holdover\n"} ==> s.lock == Holdover && s.timer == Some(at + 30_000_000_000))
      && (word in {"freerun", "freerun\n"} ==> s.lock == Unlocked && s.timer == None)
      && (word !in {"locked", "locked\n", "holdover", "holdover\n", "freerun", "freerun\n"} ==> s == Run(es))
      && (Choice(buf).None? <==> word !in {"locked", "locked\n", "holdover", "holdover\n", "freerun", "freerun\n"})
  {
    var e := Chosen(at, buf);
    assert Front(es + [e]) == es && Last(es + [e]) == e;
    HistoryDecides(es, latency);
  }

  /** Within a loss, the free-running status returns to holdover exactly at a repeated mask, which
      starts another thirty seconds. */
  lemma RepeatedMaskRestarts(es: seq<Event>, e: Event, latency: nat)
    requires Legal(es + [e], latency) && Lost(es) && Lost(es + [e]) && Run(es).lock == Unlocked
    ensures Run(es + [e]).lock == Holdover <==> e.Written? && SignalOf(e.buf) == Masked
    ensures e.Written? && SignalOf(e.buf) == Masked ==>
      Run(es + [e]).timer == Some(e.at + HOLDOVER) && LostSince(es + [e]) == e.at
  {
    assert Front(es + [e]) == es && Last(es + [e]) == e;
    HistoryDecides(es, latency);
  }

  // ---- who can end a loss -------------------------------------------------------------------------

  /** Writes that end a loss: a cleared mask, or, outside a mask, a reported fix. */
  predicate Ends(es: seq<Event>, e: Event) {
    e.Written? && (SignalOf(e.buf) == Unmasked
                   || (!Blocked(es) && SignalOf(e.buf).Fix? && SignalOf(e.buf).quality != 0))
  }

  lemma LossEndsExactly(es: seq<Event>, e: Event, latency: nat)
    requires Lost(es) && Legal(es + [e], latency)
    ensures Front(es + [e]) == es
    ensures Lost(es + [e]) <==> !Ends(es, e)
    ensures Run(es + [e]).lock == LockedHoAcq <==> Ends(es, e)
  {
    assert Front(es + [e]) == es && Last(es + [e]) == e;
    HistoryDecides(es, latency);
    HistoryDecides(es + [e], latency);
  }

  function WithoutWords(es: seq<Event>): (r: seq<Event>)
    ensures forall e | e in r :: e in es && !e.Chosen?
    decreases |es|
  {
    if es == [] then []
    else if Last(es).Chosen? then WithoutWords(Front(es))
    else WithoutWords(Front(es)) + [Last(es)]
  }

  lemma Extend(es: seq<Event>, more: seq<Event>)
    requires more != []
    ensures es + more != [] && Front(es + more) == es + Front(more) && Last(es + more) == Last(more)
  {
  }

  lemma {:induction false} LegalPrefix(es: seq<Event>, more: seq<Event>, latency: nat)
    requires Legal(es + more, latency)
    ensures Legal(es, latency)
    decreases |more|
  {
    if more == [] {
      assert es + more == es;
    } else {
      Extend(es, more);
      LegalPrefix(es, Front(more), latency);
    }
  }

  /** While a loss lasts, the words written to sysfs can be struck from the history. */
  lemma {:induction false} WordsPowerless(es: seq<Event>, more: seq<Event>, latency: nat)
    requires Legal(es + more, latency)
    requires forall k | 0 <= k <= |more| :: Lost(es + more[..k])
    ensures Run(es + more) == Run(es + WithoutWords(more))
    decreases |more|
  {
    if more != [] {
      var fore := Front(more);
      Extend(es, more);
      forall k | 0 <= k <= |fore| ensures Lost(es + fore[..k]) {
        assert fore[..k] == more[..k];
      }
      WordsPowerless(es, fore, latency);
      HistoryDecides(es + fore, latency);
      assert fore[..|fore|] == fore;
      if !Last(more).Chosen? {
        Extend(es, WithoutWords(more));
        assert Front(WithoutWords(more)) == WithoutWords(fore);
      }
    }
  }

  /** A mask outlasts every NMEA sentence and every word: only a clearing configuration write
      ends it. */
  lemma {:induction false} MaskHolds(es: seq<Event>, more: seq<Event>, latency: nat)
    requires Blocked(es) && Legal(es + more, latency)
    requires forall e | e in more && e.Written? :: SignalOf(e.buf) != Unmasked
    ensures Blocked(es + more) && Lost(es + more)
    ensures Run(es + more).lock != LockedHoAcq
    decreases |more|
  {
    if more == [] {
      assert es + more == es;
    } else {
      Extend(es, more);
      MaskHolds(es, Front(more), latency);
    }
    HistoryDecides(es + more, latency);
  }

  // ---- bytes to status -------------------------------------------------------------------------------

  /** A printed GGA sentence, alone or after other sentences, reports its own quality. */
  lemma PrintedSentenceReports(prefix: seq<Byte>, talker: seq<Byte>, fs: seq<seq<Byte>>, quality: nat, rest: seq<Byte>)
    requires |talker| == 2 && |fs| == 5 && quality <= 9
    requires prefix == [] || prefix[0] == Nmea.DOLLAR
    requires forall p: nat :: !Nmea.IsHeader(prefix, p)
    requires forall f | f in fs :: Nmea.SeparatorFree(f)
    ensures SignalOf(prefix + Nmea.Sentence(talker, fs, quality, rest)) == Fix(quality)
  {
    Nmea.PrintedQualityIsRead(prefix, talker, fs, quality, rest);
  }

  /** A built CFG-VALSET frame masks or unmasks by the first value of the interference key. */
  lemma BuiltValsetRules(header: seq<Byte>, kvs: seq<Ubx.KeyVal>)
    requires |header| == Ubx.VALSET_HDR_LEN && Ubx.Keys32(kvs) && 4 + 5 * |kvs| < 0x1_0000
    ensures SignalOf(Ubx.Frame(Ubx.Msg(Ubx.CLASS_CFG, Ubx.CFG_VALSET, header + Ubx.KeyVals(kvs))))
            == match Ubx.FirstOf(kvs)
               case None => Silent
               case Some(v) => if v > 0 then Masked else Unmasked
  {
    var m := Ubx.Msg(Ubx.CLASS_CFG, Ubx.CFG_VALSET, header + Ubx.KeyVals(kvs));
    Ubx.BuiltValsetIsRead(header, kvs);
    Ubx.FrameFront(m);
  }
}
