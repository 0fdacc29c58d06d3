/** The receiver object (struct nsim_dpll): raw writes are dispatched on their first bytes, the
    lock machine advances in place and answers are queued on the read side. */
module GnssDevice {
  import opened Prelude
  import Nmea
  import Ubx
  import L = GnssLock

  const CLASS_NAV: Byte := 0x01
  const CLASS_ACK: Byte := 0x05
  const CLASS_MON: Byte := 0x0A
  const NAV_STATUS: Byte := 0x03
  const NAV_CLOCK: Byte := 0x22
  const ACK_ACK: Byte := 0x01
  const CFG_MSG: Byte := 0x01
  const CFG_CFG: Byte := 0x09
  const MON_VER: Byte := 0x04
  const MON_HW: Byte := 0x09
  const MON_VER_LEN: nat := 30 + 10 + 30

  // ---- answers ---------------------------------------------------------------------------

  /** strscpy into a zeroed field of n bytes. */
  function Text(t: string, n: nat): (r: seq<Byte>)
    ensures |r| == n
  {
    seq(n, i requires 0 <= i => if i < |t| then t[i] as int % 256 else 0)
  }

  function MonVer(): (r: seq<Byte>)
    ensures |r| == MON_VER_LEN
  {
    Text("SIM 1.00 (000000)", 30) + Text("00190000", 10) + Text("PROTVER=29.20", 30)
  }

  function MonHw(): (r: seq<Byte>)
    ensures |r| == 60
  {
    Text("", 20) + [2, 2] + Text("", 38)
  }

  predicate Itow(t: nat) { t < 0x1_0000_0000 }

  function NavStatus(itow: nat, fix: Byte): (r: seq<Byte>)
    requires Itow(itow)
    ensures |r| == 16
  {
    Ubx.ToLe32(itow) + [fix, if fix >= 2 then 0x0D else 0, 0, 8] + Ubx.ToLe32(1000) + Ubx.ToLe32(60000)
  }

  function NavClock(itow: nat, fix: Byte): (r: seq<Byte>)
    requires Itow(itow)
    ensures |r| == 20
  {
    Ubx.ToLe32(itow) + Ubx.ToLe32(0) + Ubx.ToLe32(0) + Ubx.ToLe32(if fix >= 2 then 10 else 999999) + Ubx.ToLe32(10)
  }

  function Ack(cls: Byte, id: Byte): Ubx.Msg {
    Ubx.Msg(CLASS_ACK, ACK_ACK, [cls, id])
  }

  /** A written UBX command long enough to be dispatched. */
  predicate IsCommand(buf: seq<Byte>) {
    |buf| >= Ubx.HDR_LEN && Ubx.SyncAt(buf, 0)
  }

  predicate IsNavPoll(id: Byte) { id == NAV_STATUS || id == NAV_CLOCK }

  /** The frame that answers a command, if it is answered. */
  function Answer(buf: seq<Byte>, itow: nat, fix: Byte): Option<Ubx.Msg>
    requires IsCommand(buf) && Itow(itow)
  {
    var cls, id := buf[2], buf[3];
    if cls == CLASS_MON then
      if id == MON_VER then Some(Ubx.Msg(CLASS_MON, MON_VER, MonVer()))
      else if id == MON_HW then Some(Ubx.Msg(CLASS_MON, MON_HW, MonHw()))
      else None
    else if cls == Ubx.CLASS_CFG then
      if (id == CFG_MSG && |buf| >= Ubx.HDR_LEN + 3) || L.IsValset(buf) || id == CFG_CFG then Some(Ack(cls, id))
      else None
    else if cls == CLASS_NAV && id == NAV_STATUS then Some(Ubx.Msg(CLASS_NAV, NAV_STATUS, NavStatus(itow, fix)))
    else if cls == CLASS_NAV && id == NAV_CLOCK then Some(Ubx.Msg(CLASS_NAV, NAV_CLOCK, NavClock(itow, fix)))
    else Some(Ack(cls, id))
  }

  /** Where the report timer goes from a callback at now: on by whole seconds. */
  function NextReport(expires: nat, now: nat): (next: nat)
    requires expires <= now
    ensures now < next <= now + 1_000_000_000 && (next - expires) % 1_000_000_000 == 0
  {
    expires + ((now - expires) / L.SECOND + 1) * L.SECOND
  }

  /** Commands that turn the periodic NAV reports on. */
  predicate EnablesNav(buf: seq<Byte>)
    requires IsCommand(buf)
  {
    (buf[2] == Ubx.CLASS_CFG && buf[3] == CFG_MSG && |buf| >= Ubx.HDR_LEN + 3
     && buf[Ubx.HDR_LEN] == CLASS_NAV && IsNavPoll(buf[Ubx.HDR_LEN + 1]))
    || (buf[2] == CLASS_NAV && IsNavPoll(buf[3]))
  }

  /** A command says something about reception only if it is a CFG-VALSET. */
  lemma CommandSignal(buf: seq<Byte>, s: L.State, now: nat)
    requires IsCommand(buf) && !L.IsValset(buf)
    ensures L.OnSignal(s, L.SignalOf(buf), now) == s
  {
  }

  lemma CommandIs(buf: seq<Byte>)
    ensures IsCommand(buf) <==> |buf| >= 6 && buf[0] == 0xB5 && buf[1] == 0x62
  {
  }

  /** Which commands are answered, and with what, byte by byte. */
  lemma AnswersExactly(buf: seq<Byte>, itow: nat, fix: Byte)
    requires |buf| >= 6 && buf[0] == 0xB5 && buf[1] == 0x62 && Itow(itow)
    ensures IsCommand(buf)
    ensures var c, i, a := buf[2], buf[3], Answer(buf, itow, fix);
      && (a.None? <==> (c == 0x0A && i != 0x04 && i != 0x09)
                       || (c == 0x06 && !(i == 0x01 && |buf| >= 9) && !(i == 0x8A && |buf| >= 15) && i != 0x09))
      && (c == 0x0A && i == 0x04 ==> a == Some(Ubx.Msg(0x0A, 0x04, MonVer())))
      && (c == 0x0A && i == 0x09 ==> a == Some(Ubx.Msg(0x0A, 0x09, MonHw())))
      && (c == 0x01 && i == 0x03 ==> a == Some(Ubx.Msg(0x01, 0x03, NavStatus(itow, fix))))
      && (c == 0x01 && i == 0x22 ==> a == Some(Ubx.Msg(0x01, 0x22, NavClock(itow, fix))))
      && (a.Some? && c != 0x0A && !(c == 0x01 && (i == 0x03 || i == 0x22)) ==> a == Some(Ubx.Msg(0x05, 0x01, [c, i])))
    ensures EnablesNav(buf) <==>
      (buf[2] == 0x06 && buf[3] == 0x01 && |buf| >= 9 && buf[6] == 0x01 && (buf[7] == 0x03 || buf[7] == 0x22))
      || (buf[2] == 0x01 && (buf[3] == 0x03 || buf[3] == 0x22))
  {
  }

  /** The payload of NAV-STATUS: time of week, fix, whether it counts, and two fixed times; */
  lemma StatusPayload(itow: nat, fix: Byte)
    requires Itow(itow)
    ensures var s := NavStatus(itow, fix);
      && Ubx.Le32(s[0..4]) == itow && s[4] == fix && s[5] == (if fix >= 2 then 0x0D else 0x00)
      && s[6] == 0 && s[7] == 8 && Ubx.Le32(s[8..12]) == 1000 && Ubx.Le32(s[12..16]) == 60000
  {
    hide Ubx.ToLe32, Ubx.Le32;
    var s := NavStatus(itow, fix);
    assert s[0..4] == Ubx.ToLe32(itow) && s[8..12] == Ubx.ToLe32(1000) && s[12..16] == Ubx.ToLe32(60000);
  }

  /** of NAV-CLOCK: time of week, bias, drift, and the accuracies of time and frequency; */
  lemma ClockPayload(itow: nat, fix: Byte)
    requires Itow(itow)
    ensures var c := NavClock(itow, fix);
      && Ubx.Le32(c[0..4]) == itow && Ubx.Le32(c[4..8]) == 0 && Ubx.Le32(c[8..12]) == 0
      && Ubx.Le32(c[12..16]) == (if fix >= 2 then 10 else 999999) && Ubx.Le32(c[16..20]) == 10
  {
    hide Ubx.ToLe32, Ubx.Le32;
    var c := NavClock(itow, fix);
    assert c[0..4] == Ubx.ToLe32(itow) && c[4..8] == Ubx.ToLe32(0) && c[8..12] == Ubx.ToLe32(0);
    assert c[12..16] == Ubx.ToLe32(if fix >= 2 then 10 else 999999) && c[16..20] == Ubx.ToLe32(10);
  }

  /** of MON-HW: antenna status and power; and of MON-VER: three texts, padded with zeros. */
  lemma MonPayloads(i: nat)
    ensures i < 60 ==> MonHw()[i] == if i == 20 || i == 21 then 2 else 0
    ensures MonVer() ==
      Ascii("SIM 1.00 (000000)") + Zeros(13) + Ascii("00190000") + Zeros(2) + Ascii("PROTVER=29.20") + Zeros(17)
  {
    hide Ascii, Zeros;
    TextIs("SIM 1.00 (000000)", 30);
    TextIs("00190000", 10);
    TextIs("PROTVER=29.20", 30);
  }

  function Zeros(n: nat): seq<Byte> {
    seq(n, _ => 0)
  }

  lemma TextIs(t: string, n: nat)
    requires |t| <= n
    ensures Text(t, n) == Ascii(t) + Zeros(n - |t|)
  {
  }

  // ---- the read side ------------------------------------------------------------------------

  /** What a writer finds on the read side: echoed sentences and answer frames. */
  datatype Chunk = Echo(bytes: seq<Byte>) | Reply(msg: Ubx.Msg)

  /** Answers fit a frame; what is echoed starts with a dollar sign. */
  predicate SendableChunk(c: Chunk) {
    match c
    case Echo(b) => b != [] && b[0] == Nmea.DOLLAR
    case Reply(m) => Ubx.Framable(m)
  }

  ghost predicate Sendable(cs: seq<Chunk>) {
    forall c | c in cs :: SendableChunk(c)
  }

  ghost predicate QuietEchoes(cs: seq<Chunk>) {
    forall c | c in cs && c.Echo? :: Ubx.Quiet(c.bytes)
  }

  function ChunkBytes(c: Chunk): seq<Byte>
    requires SendableChunk(c)
  {
    match c
    case Echo(b) => b
    case Reply(m) => Ubx.Frame(m)
  }

  ghost function Bytes(cs: seq<Chunk>): seq<Byte>
    requires Sendable(cs)
    decreases |cs|
  {
    if cs == [] then []
    else
      assert cs[0] in cs;
      ChunkBytes(cs[0]) + Bytes(cs[1..])
  }

  function Replies(cs: seq<Chunk>): seq<Ubx.Msg>
    decreases |cs|
  {
    if cs == [] then []
    else (match cs[0]
          case Echo(_) => []
          case Reply(m) => [m]) + Replies(cs[1..])
  }

  lemma {:induction false} BytesAppend(cs: seq<Chunk>, c: Chunk)
    requires Sendable(cs) && SendableChunk(c)
    ensures Sendable(cs + [c]) && Bytes(cs + [c]) == Bytes(cs) + ChunkBytes(c)
    decreases |cs|
  {
    hide ChunkBytes, SendableChunk;
    assert forall x | x in cs + [c] :: x in cs || x == c;
    if cs == [] {
      assert cs + [c] == [c] && [c][1..] == [];
    } else {
      assert (cs + [c])[1..] == cs[1..] + [c] && (cs + [c])[0] == cs[0];
      assert forall x | x in cs[1..] :: x in cs;
      BytesAppend(cs[1..], c);
      assert ChunkBytes(cs[0]) + (Bytes(cs[1..]) + ChunkBytes(c)) == ChunkBytes(cs[0]) + Bytes(cs[1..]) + ChunkBytes(c);
    }
  }

  /** As long as no echoed text holds a sync pair, the read side splits back into exactly the
      answers, whatever was echoed between them. */
  lemma {:induction false} ReadSideSplits(cs: seq<Chunk>)
    requires Sendable(cs) && QuietEchoes(cs)
    ensures Ubx.Scanned(Bytes(cs), 0) == Replies(cs)
    decreases |cs|
  {
    if cs != [] {
      assert cs[0] in cs && SendableChunk(cs[0]);
      assert forall c | c in cs[1..] :: c in cs;
      ReadSideSplits(cs[1..]);
      match cs[0]
      case Echo(b) =>
        BytesStart(cs[1..]);
        Ubx.NoiseSkipped(b, Bytes(cs[1..]));
      case Reply(m) =>
        Ubx.FrameScanned(m, Bytes(cs[1..]));
    } else {
      assert Bytes(cs) == [];
    }
  }

  /** No chunk completes a sync pair that the text before it began. */
  lemma BytesStart(cs: seq<Chunk>)
    requires Sendable(cs)
    ensures Bytes(cs) != [] ==> Bytes(cs)[0] == Ubx.SYNC1 || Bytes(cs)[0] == Nmea.DOLLAR
  {
    if cs != [] {
      assert cs[0] in cs && SendableChunk(cs[0]);
      if cs[0].Reply? {
        Ubx.FrameFront(cs[0].msg);
      }
    }
  }

  /** An echo leaves every continuation readable exactly when it holds no sync pair. */
  lemma EchoExactly(b: seq<Byte>)
    requires SendableChunk(Echo(b))
    ensures Ubx.Quiet(b) <==>
      forall cs | Sendable(cs) && QuietEchoes(cs) :: Sendable([Echo(b)] + cs)
        && Ubx.Scanned(Bytes([Echo(b)] + cs), 0) == Replies(cs)
  {
    if Ubx.Quiet(b) {
      forall cs | Sendable(cs) && QuietEchoes(cs)
        ensures Sendable([Echo(b)] + cs) && Ubx.Scanned(Bytes([Echo(b)] + cs), 0) == Replies(cs)
      {
        var all := [Echo(b)] + cs;
        assert forall c | c in all :: c == Echo(b) || c in cs;
        assert all[1..] == cs;
        ReadSideSplits(all);
        assert Replies(all) == [] + Replies(cs);
      }
    } else {
      var i: nat :| Ubx.SyncAt(b, i);
      SyncPairMisread(b, i);
    }
  }

  const LINE: Chunk := Echo([Nmea.DOLLAR, 0x0A])

  lemma LineFacts()
    ensures SendableChunk(LINE) && Ubx.Quiet(LINE.bytes) && |ChunkBytes(LINE)| == 2
  {
  }

  /** n short lines: a dollar sign and a newline each. */
  function Lines(n: nat): seq<Chunk> {
    if n == 0 then [] else [LINE] + Lines(n - 1)
  }

  lemma {:induction false} LinesAreQuiet(n: nat)
    ensures Sendable(Lines(n)) && QuietEchoes(Lines(n)) && Replies(Lines(n)) == []
    ensures |Bytes(Lines(n))| == 2 * n
  {
    hide Ubx.Quiet, ChunkBytes, SendableChunk;
    if n > 0 {
      var all, rest := Lines(n), Lines(n - 1);
      LinesAreQuiet(n - 1);
      LineFacts();
      assert all[0] == LINE && all[1..] == rest;
      assert forall c | c in all :: c == LINE || c in rest;
      assert Bytes(all) == ChunkBytes(LINE) + Bytes(rest);
    }
  }

  /** Enough harmless lines after a sync pair complete the frame it seems to announce. */
  lemma SyncPairMisread(b: seq<Byte>, i: nat)
    requires SendableChunk(Echo(b)) && Ubx.SyncAt(b, i)
    ensures exists cs :: Sendable(cs) && QuietEchoes(cs) && Replies(cs) == []
              && Sendable([Echo(b)] + cs) && Ubx.Scanned(Bytes([Echo(b)] + cs), 0) != []
  {
    hide Lines, Ubx.Scanned;
    var cs := Lines(0x8008);
    LinesAreQuiet(0x8008);
    var all := [Echo(b)] + cs;
    assert forall c | c in all :: c == Echo(b) || c in cs;
    assert all[1..] == cs;
    var data := b + Bytes(cs);
    assert Bytes(all) == data;
    assert Ubx.SyncAt(data, i);
    assert Ubx.FrameAt(data, i).Some?;
    Ubx.FrameFound(data, 0, i);
  }

  /** A poll after any legal history reports no fix exactly while reception is lost. */
  lemma PollReportsLoss(es: seq<L.Event>, latency: nat, poll: seq<Byte>, itow: nat)
    requires L.Legal(es, latency) && IsCommand(poll) && poll[2] == CLASS_NAV && poll[3] == NAV_STATUS && Itow(itow)
    ensures L.Run(es).fix < 256
    ensures var a := Answer(poll, itow, L.Run(es).fix);
            a.Some? && |a.value.payload| == 16 && a.value.payload[4] == L.FixAfter(es)
            && (a.value.payload[4] == 0 <==> L.Lost(es))
  {
    L.HistoryDecides(es, latency);
    L.FixFollows(es, latency);
  }

  // ---- the object ------------------------------------------------------------------------------

  class Gnss {
    var lock: L.Lock
    var blocked: bool
    var fix: Byte
    var timer: Option<nat>
    var navEnabled: bool
    /** When the periodic reports are due. */
    var ubxTimer: Option<nat>
    var out: seq<Byte>
    ghost var chunks: seq<Chunk>

    ghost predicate Valid()
      reads this
    {
      Sendable(chunks) && out == Bytes(chunks) && (navEnabled ==> ubxTimer.Some?)
    }

    ghost function Lock(): L.State
      reads this
    {
      L.State(lock, blocked, fix, timer)
    }

    constructor ()
      ensures Valid() && Lock() == L.INITIAL && !navEnabled && ubxTimer == None && chunks == []
    {
      lock, blocked, fix, timer := L.LockedHoAcq, false, L.FIX_3D, None;
      navEnabled, ubxTimer, out, chunks := false, None, [], [];
    }

    /** nsim_dpll_enter_holdover: always restarts the timer. */
    method EnterHoldover(now: nat)
      modifies this`lock, this`timer
      ensures Lock() == L.EnterHoldover(old(Lock()), now)
    {
      if lock != L.Holdover {
        lock := L.Holdover;
      }
      timer := Some(now + L.HOLDOVER);
    }

    /** nsim_dpll_enter_locked. */
    method EnterLocked()
      modifies this`lock, this`timer
      ensures Lock() == L.EnterLocked(old(Lock()))
    {
      timer := None;
      if lock != L.LockedHoAcq {
        lock := L.LockedHoAcq;
      }
    }

    /** nsim_dpll_holdover_timer_cb. */
    method HoldoverTimer(now: nat)
      modifies this`lock, this`timer
      ensures Lock() == L.Apply(old(Lock()), L.Expired(now))
    {
      timer := None;
      if lock == L.Holdover && (fix == L.NO_FIX || blocked) {
        lock := L.Unlocked;
      }
    }

    /** nsim_dpll_lock_status_store. */
    method LockStatusStore(word: string, now: nat) returns (e: Errno)
      modifies this`lock, this`timer
      ensures Lock() == L.Apply(old(Lock()), L.Chosen(now, word))
      ensures e == if L.Choice(word) == None then EINVAL else Ok
    {
      var choice := L.Choice(word);
      if choice.None? {
        return EINVAL;
      }
      if blocked || fix == L.NO_FIX {
        return Ok;
      }
      match choice.value {
        case Holdover => EnterHoldover(now);
        case LockedHoAcq => EnterLocked();
        case Unlocked =>
          timer := None;
          lock := L.Unlocked;
      }
      return Ok;
    }

    /** nsim_parse_gga_fix: the scan and what it drives. */
    method ParseGga(buf: seq<Byte>, now: nat)
      requires buf != [] && buf[0] == Nmea.DOLLAR && !blocked
      modifies this`lock, this`timer, this`fix
      ensures Lock() == L.OnSignal(old(Lock()), L.SignalOf(buf), now)
    {
      var quality := Nmea.ScanGga(buf);
      if quality.None? {
        return;
      }
      var was := fix;
      fix := L.GpsFix(quality.value);
      if fix == L.NO_FIX && was != L.NO_FIX {
        EnterHoldover(now);
      } else if fix != L.NO_FIX && (was == L.NO_FIX || lock != L.LockedHoAcq) {
        EnterLocked();
      }
    }

    /** gnss_insert_raw of an echoed sentence. */
    method InsertEcho(buf: seq<Byte>)
      requires Valid() && SendableChunk(Echo(buf))
      modifies this`out, this`chunks
      ensures Valid() && chunks == old(chunks) + [Echo(buf)]
    {
      BytesAppend(chunks, Echo(buf));
      out := out + buf;
      chunks := chunks + [Echo(buf)];
    }

    /** Builds an answer in the response buffer, which always has room, and queues it. */
    method InsertReply(m: Ubx.Msg)
      requires Valid() && |m.payload| <= MON_VER_LEN
      modifies this`out, this`chunks
      ensures Valid() && chunks == old(chunks) + [Reply(m)]
    {
      var resp := new Byte[Ubx.OVERHEAD + MON_VER_LEN];
      var e, len := Ubx.BuildFrame(resp, m);
      BytesAppend(chunks, Reply(m));
      out := out + resp[..len];
      chunks := chunks + [Reply(m)];
    }

    /** Starts the periodic reports unless they are on; also nsim_gnss_open. */
    method EnableNav(now: nat)
      requires Valid()
      modifies this`navEnabled, this`ubxTimer
      ensures Valid() && navEnabled
      ensures ubxTimer == if old(navEnabled) then old(ubxTimer) else Some(now + 1_000_000_000)
    {
      if !navEnabled {
        navEnabled := true;
        ubxTimer := Some(now + L.SECOND);
      }
    }

    /** nsim_gnss_close. */
    method Close()
      requires Valid()
      modifies this`navEnabled, this`ubxTimer
      ensures Valid() && !navEnabled && ubxTimer == None
    {
      navEnabled := false;
      ubxTimer := None;
    }

    /** The CFG-VALSET branch. */
    method ApplyValset(buf: seq<Byte>, now: nat)
      requires L.IsValset(buf)
      modifies this`lock, this`timer, this`fix, this`blocked
      ensures Lock() == L.OnSignal(old(Lock()), L.SignalOf(buf), now)
    {
      var val := Ubx.ScanValset(buf);
      if val.Some? {
        if val.value > 0 {
          blocked, fix := true, L.NO_FIX;
          EnterHoldover(now);
        } else {
          blocked, fix := false, L.FIX_3D;
          EnterLocked();
        }
      }
    }

    /** nsim_gnss_write_raw. */
    method WriteRaw(buf: seq<Byte>, now: nat, itow: nat) returns (count: nat)
      requires Valid() && Itow(itow)
      modifies this
      ensures Valid() && count == |buf|
      ensures Lock() == L.Apply(old(Lock()), L.Written(now, buf))
      ensures buf != [] && buf[0] == Nmea.DOLLAR ==> chunks == old(chunks) + [Echo(buf)]
      ensures IsCommand(buf) ==>
                chunks == old(chunks) + match Answer(buf, itow, old(fix))
                                        case None => []
                                        case Some(m) => [Reply(m)]
      ensures !IsCommand(buf) && (buf == [] || buf[0] != Nmea.DOLLAR) ==> chunks == old(chunks)
      ensures navEnabled == (old(navEnabled) || (IsCommand(buf) && EnablesNav(buf)))
      ensures ubxTimer == if navEnabled && !old(navEnabled) then Some(now + L.SECOND) else old(ubxTimer)
    {
      count := |buf|;
      if buf == [] {
        return;
      }
      if buf[0] == Nmea.DOLLAR {
        if !blocked {
          ParseGga(buf, now);
        }
        InsertEcho(buf);
        return;
      }
      if |buf| < Ubx.HDR_LEN || buf[0] != Ubx.SYNC1 || buf[1] != Ubx.SYNC2 {
        return;
      }
      HandleCommand(buf, now, itow);
    }

    /** The dispatch of nsim_gnss_write_raw on class and id. */
    method HandleCommand(buf: seq<Byte>, now: nat, itow: nat)
      requires Valid() && Itow(itow) && IsCommand(buf)
      modifies this
      ensures Valid()
      ensures Lock() == L.Apply(old(Lock()), L.Written(now, buf))
      ensures chunks == old(chunks) + match Answer(buf, itow, old(fix))
                                      case None => []
                                      case Some(m) => [Reply(m)]
      ensures navEnabled == (old(navEnabled) || EnablesNav(buf))
      ensures ubxTimer == if navEnabled && !old(navEnabled) then Some(now + L.SECOND) else old(ubxTimer)
    {
      hide MonVer, MonHw, NavStatus, NavClock, Text, L.SignalOf, L.OnSignal;
      if !L.IsValset(buf) {
        CommandSignal(buf, Lock(), now);
      }
      var cls, id := buf[2], buf[3];
      if cls == CLASS_MON {
        if id == MON_VER {
          InsertReply(Ubx.Msg(CLASS_MON, MON_VER, MonVer()));
        } else if id == MON_HW {
          InsertReply(Ubx.Msg(CLASS_MON, MON_HW, MonHw()));
        }
      } else if cls == Ubx.CLASS_CFG {
        if id == CFG_MSG && |buf| >= Ubx.HDR_LEN + 3 {
          if buf[Ubx.HDR_LEN] == CLASS_NAV && IsNavPoll(buf[Ubx.HDR_LEN + 1]) {
            EnableNav(now);
          }
          InsertReply(Ack(cls, id));
        } else if id == Ubx.CFG_VALSET && |buf| >= L.VALSET_MIN {
          ApplyValset(buf, now);
          InsertReply(Ack(cls, id));
        } else if id == CFG_CFG {
          InsertReply(Ack(cls, id));
        }
      } else if cls == CLASS_NAV {
        if IsNavPoll(id) {
          EnableNav(now);
          if id == NAV_STATUS {
            InsertReply(Ubx.Msg(CLASS_NAV, NAV_STATUS, NavStatus(itow, fix)));
          } else {
            InsertReply(Ubx.Msg(CLASS_NAV, NAV_CLOCK, NavClock(itow, fix)));
          }
        } else {
          InsertReply(Ack(cls, id));
        }
      } else {
        InsertReply(Ack(cls, id));
      }
    }

    /** nsim_ubx_timer_cb: the periodic reports carry the current fix and come back on the same
        one-second grid, until closed. */
    method UbxTimer(now: nat, itow: nat) returns (restart: bool)
      requires Valid() && Itow(itow) && ubxTimer.Some? && ubxTimer.value <= now
      modifies this`out, this`chunks, this`ubxTimer
      ensures Valid() && restart == navEnabled
      ensures ubxTimer == if restart then Some(NextReport(old(ubxTimer).value, now)) else None
      ensures chunks == old(chunks) + if navEnabled then
                                        [Reply(Ubx.Msg(CLASS_NAV, NAV_STATUS, NavStatus(itow, fix))),
                                         Reply(Ubx.Msg(CLASS_NAV, NAV_CLOCK, NavClock(itow, fix)))]
                                      else []
    {
      if !navEnabled {
        ubxTimer := None;
        return false;
      }
      InsertReply(Ubx.Msg(CLASS_NAV, NAV_STATUS, NavStatus(itow, fix)));
      InsertReply(Ubx.Msg(CLASS_NAV, NAV_CLOCK, NavClock(itow, fix)));
      ubxTimer := Some(NextReport(ubxTimer.value, now));
      return true;
    }
  }
}
