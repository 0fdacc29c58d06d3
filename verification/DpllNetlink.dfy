/** The netlink side of the DPLL subsystem (dpll/dpll_netlink.c): setting a value on every
    device of a pin with rollback, and dumping objects over several calls. */
module DpllNetlink {
  import opened Prelude
  import opened DpllGraph

  // ---- setting a value on every device of a pin --------------------------------

  datatype Range = Range(min: int, max: int)

  const TWO_TO_THE_32: int := 0x1_0000_0000

  predicate InRanges(ranges: seq<Range>, v: int) {
    exists k :: 0 <= k < |ranges| && ranges[k].min <= v <= ranges[k].max
  }

  /** dpll_pin_is_freq_supported takes its argument as u32: a 64-bit frequency arrives
      reduced modulo 2^32. */
  method IsFreqSupported(ranges: seq<Range>, freq: nat) returns (ok: bool)
    ensures ok == InRanges(ranges, freq % 0x1_0000_0000)
  {
    var narrow := freq % TWO_TO_THE_32;
    for fs := 0 to |ranges|
      invariant forall k | 0 <= k < fs :: !(ranges[k].min <= narrow <= ranges[k].max)
    {
      if narrow >= ranges[fs].min && narrow <= ranges[fs].max {
        return true;
      }
    }
    return false;
  }

  /** The outcome over the devices ids: v is set in ascending order; the first refusal makes
      the devices before it go back to the value the first device had. */
  function SetOutcome(values: map<nat, int>, ids: set<nat>, v: int, sets: nat -> bool,
    undoes: nat -> bool): (map<nat, int>, Errno)
    requires ids != {} && ids <= values.Keys
  {
    var first := Next(ids, 0);
    var prior := if first.Some? then values[first.value] else v;
    if v == prior then (values, Ok) else
    var refusing := set i | i in ids && !sets(i);
    match Next(refusing, 0)
    case None => (SetOn(values, ids, v), Ok)
    case Some(stop) => (SetOn(SetOn(values, Below(ids, stop), v), Where(Below(ids, stop), undoes), prior), EDRIVER)
  }

  function SetOn(values: map<nat, int>, ids: set<nat>, v: int): map<nat, int> {
    map i | i in values :: if i in ids then v else values[i]
  }

  function Where(ids: set<nat>, pick: nat -> bool): set<nat> {
    set i | i in ids && pick(i)
  }

  lemma SetOnMore(values: map<nat, int>, ids: set<nat>, i: nat, v: int)
    requires i in values
    ensures SetOn(values, ids, v).Keys == values.Keys && SetOn(values, ids, v)[i := v] == SetOn(values, ids + {i}, v)
    ensures SetOn(values, {}, v) == values
  {
  }

  lemma WhereMore(ids: set<nat>, i: nat, pick: nat -> bool)
    ensures Where(ids + {i}, pick) == if pick(i) then Where(ids, pick) + {i} else Where(ids, pick)
    ensures Where({}, pick) == {}
  {
  }

  ghost predicate AllAt(values: map<nat, int>, ids: set<nat>, v: int) {
    forall i | i in ids && i in values :: values[i] == v
  }

  /** A driver's per-device value of one pin attribute; a refused set changes nothing. */
  class PinDriver {
    var values: map<nat, int>
    /** Every value a set callback was ever called with. */
    ghost var offered: set<int>

    constructor (values: map<nat, int>)
      ensures this.values == values && offered == {}
    {
      this.values := values;
      offered := {};
    }

    method Set(i: nat, v: int, ok: bool) returns (e: Errno)
      requires i in values
      modifies this
      ensures e == (if ok then Ok else EDRIVER)
      ensures values == if ok then old(values)[i := v] else old(values)
      ensures offered == old(offered) + {v}
    {
      offered := offered + {v};
      if !ok {
        return EDRIVER;
      }
      values := values[i := v];
      return Ok;
    }

    /** The part dpll_pin_freq_set and dpll_pin_phase_adj_set share, after validation:
        canSet says which devices have both callbacks, gets whether the old value can be read. */
    method SetAll(ids: set<nat>, v: int, canSet: nat -> bool, gets: bool, sets: nat -> bool,
      undoes: nat -> bool) returns (e: Errno)
      requires ids != {} && ids <= values.Keys
      modifies this
      ensures (exists i :: i in ids && !canSet(i)) ==> e == EOPNOTSUPP
      ensures (forall i | i in ids :: canSet(i)) && !gets ==> e == EDRIVER
      ensures !gets || (exists i :: i in ids && !canSet(i)) ==> values == old(values) && offered == old(offered)
      ensures gets && (forall i | i in ids :: canSet(i)) ==>
        (values, e) == SetOutcome(old(values), ids, v, sets, undoes)
      ensures offered <= old(offered) + {v} + old(values).Values
    {
      ghost var lo: nat := 0;
      WalkStart(ids);
      var cur := Next(ids, 0);
      while cur.Some?
        modifies {}
        invariant cur == Next(ids, lo) && forall i | i in Below(ids, lo) :: canSet(i)
        decreases From(ids, lo)
      {
        WalkStep(ids, lo, cur.value);
        if !canSet(cur.value) {
          return EOPNOTSUPP;
        }
        lo := cur.value + 1;
        cur := Next(ids, cur.value + 1);
      }
      WalkEnd(ids, lo);
      if !gets {
        return EDRIVER;
      }
      var first := Next(ids, 0);
      FirstIn(ids);
      var prior := values[first.value];
      if v == prior {
        return Ok;
      }
      var stop;
      e, stop := SetWalk(ids, v, sets);
      if e != Ok {
        UndoWalk(ids, stop, prior, undoes);
      }
    }

    method SetWalk(ids: set<nat>, v: int, sets: nat -> bool) returns (e: Errno, stop: nat)
      requires ids <= values.Keys
      modifies this
      ensures offered <= old(offered) + {v}
      ensures var refusing := set i | i in ids && !sets(i);
        && (e == Ok ==> Next(refusing, 0) == None && values == SetOn(old(values), ids, v))
        && (e != Ok ==>
              e == EDRIVER && stop in ids && Next(refusing, 0) == Some(stop)
              && values == SetOn(old(values), Below(ids, stop), v))
    {
      ghost var refusing, lo: nat := set i | i in ids && !sets(i), 0;
      WalkStart(ids);
      stop := 0;
      var cur := Next(ids, 0);
      while cur.Some?
        invariant cur == Next(ids, lo) && Below(ids, lo) !! refusing && values.Keys == old(values).Keys
        invariant values == SetOn(old(values), Below(ids, lo), v)
        invariant offered <= old(offered) + {v}
        decreases From(ids, lo)
      {
        var i := cur.value;
        WalkStep(ids, lo, i);
        e := Set(i, v, sets(i));
        if e != Ok {
          WalkMeets(ids, lo, i, refusing);
          return e, i;
        }
        WalkPasses(ids, lo, i, refusing);
        assert values == SetOn(old(values), Below(ids, i + 1), v);
        lo := i + 1;
        cur := Next(ids, cur.value + 1);
      }
      WalkEnd(ids, lo);
      WalkMissed(ids, lo, refusing);
      return Ok, 0;
    }

    /** The rollback walk stops at the device that refused. */
    method UndoWalk(ids: set<nat>, failed: nat, prior: int, undoes: nat -> bool)
      requires ids <= values.Keys && failed in ids
      modifies this
      ensures offered <= old(offered) + {prior}
      ensures values == SetOn(old(values), Where(Below(ids, failed), undoes), prior)
    {
      hide SetOn, Where, Below;
      ghost var lo: nat := 0;
      WalkStart(ids);
      WhereMore({}, failed, undoes);
      SetOnMore(values, {}, failed, prior);
      var cur := Next(ids, 0);
      while cur.Some?
        invariant cur == Next(ids, lo) && lo <= failed && values.Keys == old(values).Keys
        invariant values == SetOn(old(values), Where(Below(ids, lo), undoes), prior)
        invariant offered <= old(offered) + {prior}
        decreases From(ids, lo)
      {
        var i := cur.value;
        WalkStep(ids, lo, i);
        assert IsNext(ids, lo, cur) && i <= failed;
        if i == failed {
          return;
        }
        WhereMore(Below(ids, lo), i, undoes);
        SetOnMore(old(values), Where(Below(ids, lo), undoes), i, prior);
        var _ := Set(i, prior, undoes(i));
        lo := i + 1;
        cur := Next(ids, cur.value + 1);
      }
      assert false;
    }

    /** dpll_pin_phase_adj_set: an out-of-range adjustment is refused before any callback. */
    method PhaseAdjSet(range: Range, ids: set<nat>, v: int, canSet: nat -> bool, gets: bool, sets: nat -> bool,
      undoes: nat -> bool)
      returns (e: Errno)
      requires ids != {} && ids <= values.Keys
      modifies this
      ensures !(range.min <= v <= range.max) ==> e == EINVAL && values == old(values) && offered == old(offered)
      ensures range.min <= v <= range.max && gets && (forall i | i in ids :: canSet(i)) ==>
        (values, e) == SetOutcome(old(values), ids, v, sets, undoes)
      ensures !gets || (exists i :: i in ids && !canSet(i)) ==> e != Ok && values == old(values)
    {
      if v > range.max || v < range.min {
        return EINVAL;
      }
      e := SetAll(ids, v, canSet, gets, sets, undoes);
    }

    /** dpll_pin_freq_set: the check sees the frequency modulo 2^32, the callbacks all of it. */
    method FreqSet(ranges: seq<Range>, ids: set<nat>, freq: nat, canSet: nat -> bool, gets: bool,
      sets: nat -> bool, undoes: nat -> bool)
      returns (e: Errno)
      requires ids != {} && ids <= values.Keys
      modifies this
      ensures !InRanges(ranges, freq % TWO_TO_THE_32) ==>
        e == EINVAL && values == old(values) && offered == old(offered)
      ensures InRanges(ranges, freq % TWO_TO_THE_32) && gets && (forall i | i in ids :: canSet(i)) ==>
        (values, e) == SetOutcome(old(values), ids, freq, sets, undoes)
      ensures !gets || (exists i :: i in ids && !canSet(i)) ==> e != Ok && values == old(values)
      ensures freq < TWO_TO_THE_32 && !InRanges(ranges, freq) ==> offered == old(offered)
    {
      var ok := IsFreqSupported(ranges, freq);
      if !ok {
        return EINVAL;
      }
      e := SetAll(ids, freq, canSet, gets, sets, undoes);
    }
  }

  /** A successful set leaves every device of the pin at the new value exactly when the first
      device did not have it already, or all of them did. */
  lemma SetSuccessExact(values: map<nat, int>, ids: set<nat>, v: int, sets: nat -> bool, undoes: nat -> bool)
    requires ids != {} && ids <= values.Keys
    requires SetOutcome(values, ids, v, sets, undoes).1 == Ok
    ensures AllAt(SetOutcome(values, ids, v, sets, undoes).0, ids, v)
       <==> (values[Next(ids, 0).value] != v || AllAt(values, ids, v))
  {
    assert IsNext(ids, 0, Next(ids, 0));
  }

  /** A refused set with a working rollback leaves every device as it was exactly when the
      devices before the refusing one all had the first device's value. */
  lemma SetFailureExact(values: map<nat, int>, ids: set<nat>, v: int, sets: nat -> bool, undoes: nat -> bool)
    requires ids != {} && ids <= values.Keys && forall i | i in ids :: undoes(i)
    requires SetOutcome(values, ids, v, sets, undoes).1 != Ok
    ensures var stop := Next(set i | i in ids && !sets(i), 0).value;
      SetOutcome(values, ids, v, sets, undoes).0 == values
      <==> AllAt(values, Below(ids, stop), values[Next(ids, 0).value])
  {
    var first := Next(ids, 0);
    assert IsNext(ids, 0, first);
    var prior := values[first.value];
    var stop := Next(set i | i in ids && !sets(i), 0).value;
    var end := SetOutcome(values, ids, v, sets, undoes).0;
    forall i | i in values
      ensures end[i] == if i in Below(ids, stop) then prior else values[i]
    {
    }
    if !AllAt(values, Below(ids, stop), prior) {
      var i :| i in Below(ids, stop) && i in values && values[i] != prior;
      assert end[i] != values[i];
    }
  }

  /** What a caller wants of a set: all devices at the new value, or nothing changed. */
  ghost predicate AllOrNothing(values: map<nat, int>, ids: set<nat>, v: int, sets: nat -> bool, undoes: nat -> bool)
    requires ids != {} && ids <= values.Keys
  {
    var (end, e) := SetOutcome(values, ids, v, sets, undoes);
    if e == Ok then AllAt(end, ids, v) else end == values
  }

  /** All devices but the last. */
  ghost function ButLast(ids: set<nat>): set<nat> {
    set i | i in ids && exists j :: j in ids && i < j
  }

  /** Whichever devices refuse, a set with working rollback is all or nothing exactly when either
      all devices are at the new value already, or the first one is not and all others up to but
      not including the last agree with it. */
  lemma AllOrNothingExactly(values: map<nat, int>, ids: set<nat>, v: int, undoes: nat -> bool)
    requires ids != {} && ids <= values.Keys && forall i | i in ids :: undoes(i)
    ensures var first := values[Next(ids, 0).value];
      (forall sets: nat -> bool :: AllOrNothing(values, ids, v, sets, undoes))
      <==> if first == v then AllAt(values, ids, v) else AllAt(values, ButLast(ids), first)
  {
    FirstIn(ids);
    var first := values[Next(ids, 0).value];
    if first == v {
      if !AllAt(values, ids, v) {
        assert !AllOrNothing(values, ids, v, _ => true, undoes);
      }
    } else if AllAt(values, ButLast(ids), first) {
      forall sets: nat -> bool ensures AllOrNothing(values, ids, v, sets, undoes) {
        RefusalUndone(values, ids, v, sets, undoes);
      }
    } else {
      var i :| i in ButLast(ids) && i in values && values[i] != first;
      var j :| j in ids && i < j;
      LaterRefusalShows(values, ids, v, k => k != j, undoes, i, j);
    }
  }

  lemma RefusalUndone(values: map<nat, int>, ids: set<nat>, v: int, sets: nat -> bool, undoes: nat -> bool)
    requires ids != {} && ids <= values.Keys && forall i | i in ids :: undoes(i)
    requires values[Next(ids, 0).value] != v && AllAt(values, ButLast(ids), values[Next(ids, 0).value])
    ensures AllOrNothing(values, ids, v, sets, undoes)
  {
    var refusing := set i | i in ids && !sets(i);
    var stop := Next(refusing, 0);
    assert IsNext(refusing, 0, stop);
    if stop.None? {
      SetSuccessExact(values, ids, v, sets, undoes);
    } else {
      SetFailureExact(values, ids, v, sets, undoes);
      assert Below(ids, stop.value) <= ButLast(ids);
    }
  }

  /** A device that differs from the first shows as soon as a later one refuses. */
  lemma LaterRefusalShows(values: map<nat, int>, ids: set<nat>, v: int, sets: nat -> bool, undoes: nat -> bool,
    i: nat, j: nat)
    requires ids != {} && ids <= values.Keys && forall i | i in ids :: undoes(i)
    requires values[Next(ids, 0).value] != v && i in ids && j in ids && i < j && values[i] != values[Next(ids, 0).value]
    requires forall k :: sets(k) == (k != j)
    ensures !AllOrNothing(values, ids, v, sets, undoes)
  {
    var refusing := set k | k in ids && !sets(k);
    NextIs(refusing, 0, Some(j));
    SetFailureExact(values, ids, v, sets, undoes);
    assert i in Below(ids, j);
  }

  /** The transaction law: from one common value, a set puts all devices at the new value or
      leaves all at the old one, whatever device refuses, as long as the rollback works. */
  lemma SetTransactional(values: map<nat, int>, ids: set<nat>, common: int, v: int, sets: nat -> bool,
    undoes: nat -> bool)
    requires ids != {} && ids <= values.Keys && AllAt(values, ids, common)
    requires forall i | i in ids :: undoes(i)
    ensures var (end, e) := SetOutcome(values, ids, v, sets, undoes);
      && AllAt(end, ids, if e == Ok then v else common)
      && (e == Ok <==> v == common || forall i | i in ids :: sets(i))
      && end.Keys == values.Keys && forall i | i in values && i !in ids :: end[i] == values[i]
  {
    var first := Next(ids, 0);
    assert IsNext(ids, 0, first);
    var (end, e) := SetOutcome(values, ids, v, sets, undoes);
    if e == Ok {
      SetSuccessExact(values, ids, v, sets, undoes);
      var refusing := set i | i in ids && !sets(i);
      assert IsNext(refusing, 0, Next(refusing, 0));
      if v != common {
        forall i | i in ids ensures sets(i) {
          assert i !in refusing;
        }
      }
    } else {
      SetFailureExact(values, ids, v, sets, undoes);
      var refusing := set i | i in ids && !sets(i);
      assert IsNext(refusing, 0, Next(refusing, 0));
    }
  }

  /** The narrowed check answers as the full one for every pin exactly when the frequency fits 32
      bits; on a pin whose ranges do, also when no range holds the low 32 bits. */
  lemma NarrowFrequency(freq: nat)
    ensures (forall ranges: seq<Range> :: InRanges(ranges, freq % 0x1_0000_0000) == InRanges(ranges, freq))
      <==> freq < 0x1_0000_0000
    ensures forall ranges: seq<Range> | (forall k | 0 <= k < |ranges| :: ranges[k].max < TWO_TO_THE_32) ::
              (InRanges(ranges, freq % TWO_TO_THE_32) == InRanges(ranges, freq)
               <==> freq < TWO_TO_THE_32 || !InRanges(ranges, freq % TWO_TO_THE_32))
  {
    if freq >= TWO_TO_THE_32 {
      var narrow := freq % TWO_TO_THE_32;
      var ranges := [Range(narrow, narrow)];
      assert ranges[0].min <= narrow <= ranges[0].max;
      assert InRanges(ranges, narrow) != InRanges(ranges, freq);
    }
  }

  // ---- availability ---------------------------------------------------------------

  predicate Available(g: Graph, p: nat)
    requires p in g.pins
  {
    p in g.pinMarks &&
    ((exists k :: k in g.pins[p].parentRefs && g.pins[p].parentRefs[k].target in g.pinMarks) ||
     (exists k :: k in g.pins[p].dpllRefs && g.pins[p].dpllRefs[k].target in g.deviceMarks))
  }

  /** The two scans of dpll_pin_available. */
  method AnyMarked(refs: Refs, marks: set<nat>) returns (found: bool)
    ensures found <==> exists k :: k in refs && refs[k].target in marks
  {
    ghost var lo: nat := 0;
    WalkStart(refs.Keys);
    var cur := Next(refs.Keys, 0);
    while cur.Some?
      invariant cur == Next(refs.Keys, lo)
      invariant forall k | k in Below(refs.Keys, lo) :: refs[k].target !in marks
      decreases From(refs.Keys, lo)
    {
      WalkStep(refs.Keys, lo, cur.value);
      if refs[cur.value].target in marks {
        return true;
      }
      lo := cur.value + 1;
      cur := Next(refs.Keys, cur.value + 1);
    }
    WalkEnd(refs.Keys, lo);
    return false;
  }

  method PinAvailable(g: Graph, p: nat) returns (ok: bool)
    requires p in g.pins
    ensures ok == Available(g, p)
  {
    if p !in g.pinMarks {
      return false;
    }
    ok := AnyMarked(g.pins[p].parentRefs, g.pinMarks);
    if !ok {
      ok := AnyMarked(g.pins[p].dpllRefs, g.deviceMarks);
    }
  }

  /** In a reachable graph a pin is available exactly when it is on a device, and one of its devices is
      registered or one of its parents is on a device itself. */
  lemma AvailableExactly(g: Graph, p: nat)
    requires Inv(g) && p in g.pins
    ensures Available(g, p) <==>
      && g.pins[p].dpllRefs != map[]
      && ((exists d :: d in g.pins[p].dpllRefs && d in g.devices && g.devices[d].regs != [])
          || (exists k :: k in g.pins[p].parentRefs && g.pins[p].parentRefs[k].target in g.pins
                && g.pins[g.pins[p].parentRefs[k].target].dpllRefs != map[]))
  {
    assert PinTable(g, p) && ParentTable(g, p);
    assert forall d | d in g.pins[p].dpllRefs :: g.pins[p].dpllRefs[d].target == d;
  }

  /** In a reachable graph the first device reference every get and set starts from exists. */
  lemma AvailableHasDevice(g: Graph, p: nat)
    requires Inv(g) && p in g.pins && Available(g, p)
    ensures var first := Next(g.pins[p].dpllRefs.Keys, 0);
      first.Some? && first.value in g.pins[p].dpllRefs && g.pins[p].dpllRefs[first.value].target in g.devices
  {
    assert PinTable(g, p);
    var keys := g.pins[p].dpllRefs.Keys;
    assert keys != {};
    assert IsNext(keys, 0, Next(keys, 0));
  }

  // ---- resumable dumps ----------------------------------------------------------------

  /** The objects a dump owes from index from on, in ascending order. */
  function Wanted(s: set<nat>, from: nat): seq<nat>
    decreases From(s, from)
  {
    match Next(s, from)
    case None => []
    case Some(i) =>
      WalkStep(s, from, i);
      [i] + Wanted(s, i + 1)
  }

  lemma {:induction false} WantedMeaning(s: set<nat>, from: nat)
    ensures forall k: nat :: k in Wanted(s, from) <==> k in s && from <= k
    ensures forall i, j | 0 <= i < j < |Wanted(s, from)| :: Wanted(s, from)[i] < Wanted(s, from)[j]
    decreases From(s, from)
  {
    var n := Next(s, from);
    assert IsNext(s, from, n);
    if n.Some? {
      WalkStep(s, from, n.value);
      WantedMeaning(s, n.value + 1);
      assert forall k | k in s && from <= k :: k == n.value || n.value + 1 <= k;
      var rest := Wanted(s, n.value + 1);
      assert forall i | 0 <= i < |rest| :: rest[i] in rest;
    }
  }

  function Size(msgs: seq<nat>, size: nat -> nat): nat {
    if msgs == [] then 0 else Size(msgs[..|msgs| - 1], size) + size(msgs[|msgs| - 1])
  }

  /** What one dump call delivers: the longest prefix of what is owed that fits the buffer. */
  ghost predicate Delivers(owed: seq<nat>, size: nat -> nat, cap: nat, msgs: seq<nat>) {
    && msgs <= owed
    && Size(msgs, size) <= cap
    && (msgs != owed ==> Size(msgs, size) + size(owed[|msgs|]) > cap)
  }

  class DumpContext {
    var idx: nat

    constructor ()
      ensures idx == 0
    {
      idx := 0;
    }

    /** dpll_nl_pin_get_dumpit and dpll_nl_device_get_dumpit: marked is the set of registered
        indices, shown those of them that pass the availability test.  broken tells which object a
        driver refuses to describe, with how much room left, before space runs out.  EMSGSIZE says
        that the buffer filled up and the call asks to be resumed. */
    method DumpIt(marked: set<nat>, shown: set<nat>, size: nat -> nat, cap: nat, broken: (nat, nat) -> bool)
      returns (msgs: seq<nat>, e: Errno)
      requires shown <= marked
      modifies this
      ensures e in {Ok, EMSGSIZE, EDRIVER}
      ensures e != EDRIVER ==> msgs == Deliver(Wanted(shown, old(idx)), size, cap)
      ensures e == Ok ==> msgs == Wanted(shown, old(idx))
      ensures e == EMSGSIZE ==>
        idx in shown && Wanted(shown, old(idx)) == msgs + Wanted(shown, idx) && msgs != Wanted(shown, old(idx))
      ensures e == EDRIVER ==>
        exists i, room :: i in shown && broken(i, room) && Wanted(shown, old(idx)) == msgs + Wanted(shown, i)
                          && Deliver(Wanted(shown, old(idx)), size, cap) == msgs + Deliver(Wanted(shown, i), size, room)
      ensures e != EMSGSIZE ==> idx == old(idx)
    {
      hide *;
      msgs, e := [], Ok;
      ghost var owed, lo: nat := Wanted(shown, idx), idx;
      var len := 0;
      var cur := Next(marked, idx);
      while cur.Some?
        invariant cur == Next(marked, lo) && idx == old(idx) && len <= cap
        invariant owed == msgs + Wanted(shown, lo)
        invariant Deliver(owed, size, cap) == msgs + Deliver(Wanted(shown, lo), size, cap - len)
        decreases From(marked, lo)
      {
        var i := cur.value;
        WalkStep(marked, lo, i);
        NextShown(marked, shown, lo, i);
        if i in shown {
          if broken(i, cap - len) {
            return msgs, EDRIVER;
          }
          if len + size(i) > cap {
            NoRoom(i, Wanted(shown, i + 1), size, cap - len);
            idx := i;
            return msgs, EMSGSIZE;
          }
          DeliverOne(msgs, i, Wanted(shown, i + 1), size, cap - len);
          msgs := msgs + [i];
          len := len + size(i);
        }
        lo := i + 1;
        cur := Next(marked, i + 1);
      }
      NothingLeft(marked, shown, lo);
    }
  }

  lemma DeliverOne(sent: seq<nat>, i: nat, rest: seq<nat>, size: nat -> nat, room: nat)
    requires size(i) <= room
    ensures sent + ([i] + rest) == (sent + [i]) + rest
    ensures sent + Deliver([i] + rest, size, room) == (sent + [i]) + Deliver(rest, size, room - size(i))
  {
    assert ([i] + rest)[1..] == rest;
  }

  lemma NoRoom(i: nat, rest: seq<nat>, size: nat -> nat, room: nat)
    requires size(i) > room
    ensures Deliver([i] + rest, size, room) == []
  {
  }

  lemma NothingLeft(marked: set<nat>, shown: set<nat>, lo: nat)
    requires shown <= marked && Next(marked, lo) == None
    ensures Wanted(shown, lo) == []
    ensures forall size: nat -> nat, room: nat :: Deliver([], size, room) == []
  {
    assert IsNext(marked, lo, None);
    NextIs(shown, lo, None);
  }

  lemma NextShown(marked: set<nat>, shown: set<nat>, lo: nat, i: nat)
    requires shown <= marked && Next(marked, lo) == Some(i)
    ensures i in shown ==> Wanted(shown, lo) == [i] + Wanted(shown, i + 1) && Wanted(shown, i) == Wanted(shown, lo)
    ensures i !in shown ==> Wanted(shown, lo) == Wanted(shown, i + 1)
  {
    assert IsNext(marked, lo, Some(i));
    if i in shown {
      NextIs(shown, lo, Some(i));
      NextIs(shown, i, Some(i));
    } else {
      var n := Next(shown, i + 1);
      assert IsNext(shown, i + 1, n);
      NextIs(shown, lo, n);
    }
  }

  /** The longest prefix of what is owed that fits a buffer. */
  function Deliver(owed: seq<nat>, size: nat -> nat, cap: nat): seq<nat> {
    if owed == [] || size(owed[0]) > cap then []
    else [owed[0]] + Deliver(owed[1..], size, cap - size(owed[0]))
  }

  /** What a client receives over all its calls: again while the last one asked to be resumed and
      delivered something.  A call that delivers nothing ends the dump. */
  function Dump(owed: seq<nat>, size: nat -> nat, caps: nat -> nat, call: nat): (r: seq<nat>)
    decreases |owed|
  {
    var msgs := Deliver(owed, size, caps(call));
    DeliverPrefix(owed, size, caps(call));
    if msgs == owed || msgs == [] then msgs
    else msgs + Dump(owed[|msgs|..], size, caps, call + 1)
  }

  /** The calls of a client with nothing else going on; a driver error ends them early. */
  method DumpAll(marked: set<nat>, shown: set<nat>, size: nat -> nat, caps: nat -> nat, broken: (nat, nat) -> bool)
    returns (all: seq<nat>, e: Errno)
    requires shown <= marked
    ensures e == EDRIVER || all == Dump(Wanted(shown, 0), size, caps, 0)
    ensures e == EDRIVER ==>
      exists i, room :: i in shown && broken(i, room) && Wanted(shown, 0) == all + Wanted(shown, i)
    ensures (forall i, room :: !broken(i, room)) ==> e != EDRIVER
  {
    hide *;
    var ctx := new DumpContext();
    var call, msgs := 0, [];
    all := [];
    ghost var owed := Wanted(shown, 0);
    while true
      invariant Wanted(shown, 0) == all + owed && owed == Wanted(shown, ctx.idx)
      invariant Dump(Wanted(shown, 0), size, caps, 0) == all + Dump(owed, size, caps, call)
      decreases |owed|
    {
      msgs, e := ctx.DumpIt(marked, shown, size, caps(call), broken);
      ghost var rest := Wanted(shown, ctx.idx);
      if e == EDRIVER {
        DriverError(all, owed, msgs, shown);
        return all + msgs, e;
      }
      OneCall(all, owed, msgs, size, caps, call);
      all := all + msgs;
      if e != EMSGSIZE || msgs == [] {
        return;
      }
      assert owed == msgs + rest;
      owed := rest;
      call := call + 1;
    }
  }

  lemma DriverError(all: seq<nat>, owed: seq<nat>, msgs: seq<nat>, shown: set<nat>)
    requires Wanted(shown, 0) == all + owed
    ensures forall i | owed == msgs + Wanted(shown, i) :: Wanted(shown, 0) == (all + msgs) + Wanted(shown, i)
  {
    forall i | owed == msgs + Wanted(shown, i) ensures Wanted(shown, 0) == (all + msgs) + Wanted(shown, i) {
      assert all + (msgs + Wanted(shown, i)) == (all + msgs) + Wanted(shown, i);
    }
  }

  lemma OneCall(all: seq<nat>, owed: seq<nat>, msgs: seq<nat>, size: nat -> nat, caps: nat -> nat, call: nat)
    requires msgs == Deliver(owed, size, caps(call))
    ensures msgs <= owed
    ensures msgs == owed || msgs == [] ==> all + Dump(owed, size, caps, call) == all + msgs
    ensures !(msgs == owed || msgs == []) ==>
      all + Dump(owed, size, caps, call) == (all + msgs) + Dump(owed[|msgs|..], size, caps, call + 1)
  {
    DeliverPrefix(owed, size, caps(call));
  }

  lemma {:induction false} SizeCons(m: nat, msgs: seq<nat>, size: nat -> nat)
    ensures Size([m] + msgs, size) == size(m) + Size(msgs, size)
  {
    if msgs == [] {
      assert [m] + msgs == [m];
      assert [m][..0] == [];
    } else {
      var k := |msgs| - 1;
      assert ([m] + msgs)[..k + 1] == [m] + msgs[..k];
      SizeCons(m, msgs[..k], size);
    }
  }

  lemma {:induction false} DeliverPrefix(owed: seq<nat>, size: nat -> nat, cap: nat)
    ensures Delivers(owed, size, cap, Deliver(owed, size, cap))
    decreases |owed|
  {
    if owed != [] && size(owed[0]) <= cap {
      DeliverPrefix(owed[1..], size, cap - size(owed[0]));
      var rest := Deliver(owed[1..], size, cap - size(owed[0]));
      SizeCons(owed[0], rest, size);
      assert owed == [owed[0]] + owed[1..];
    }
  }

  lemma {:induction false} SizeMonotone(msgs: seq<nat>, n: nat, size: nat -> nat)
    requires n <= |msgs|
    ensures Size(msgs[..n], size) <= Size(msgs, size)
    decreases |msgs|
  {
    if n < |msgs| {
      var k := |msgs| - 1;
      assert msgs[..k][..n] == msgs[..n];
      SizeMonotone(msgs[..k], n, size);
    } else {
      assert msgs[..n] == msgs;
    }
  }

  /** The dump call's promise pins down what it delivers. */
  lemma DeliversUnique(owed: seq<nat>, size: nat -> nat, cap: nat, msgs: seq<nat>)
    requires Delivers(owed, size, cap, msgs)
    ensures msgs == Deliver(owed, size, cap)
  {
    var other := Deliver(owed, size, cap);
    DeliverPrefix(owed, size, cap);
    var a, b := if |msgs| < |other| then msgs else other, if |msgs| < |other| then other else msgs;
    if |a| < |b| {
      var n := |a| + 1;
      assert b[..n][..n - 1] == a && b[..n][n - 1] == owed[|a|];
      SizeMonotone(b, n, size);
      assert false;
    }
    assert msgs == owed[..|msgs|] && other == owed[..|other|];
  }

  /** Some reached call has a buffer too small for the message it must start with. */
  predicate Starves(owed: seq<nat>, size: nat -> nat, caps: nat -> nat, call: nat)
    decreases |owed|
  {
    var msgs := Deliver(owed, size, caps(call));
    DeliverPrefix(owed, size, caps(call));
    owed != [] && (msgs == [] || Starves(owed[|msgs|..], size, caps, call + 1))
  }

  /** Concatenated over all its calls, a dump lists everything owed, each object once and in
      order, exactly when no call starves. */
  lemma {:induction false} DumpExact(owed: seq<nat>, size: nat -> nat, caps: nat -> nat, call: nat)
    ensures Dump(owed, size, caps, call) <= owed
    ensures Dump(owed, size, caps, call) == owed <==> !Starves(owed, size, caps, call)
    decreases |owed|
  {
    var msgs := Deliver(owed, size, caps(call));
    DeliverPrefix(owed, size, caps(call));
    var rest := owed[|msgs|..];
    if msgs != owed && msgs != [] {
      DumpExact(rest, size, caps, call + 1);
      assert owed == msgs + rest;
      var tail := Dump(rest, size, caps, call + 1);
      if msgs + tail == owed {
        assert tail == (msgs + tail)[|msgs|..] == rest;
      }
    } else if msgs == owed && owed != [] {
      assert rest == [];
    }
  }

  /** Buffers that hold any single message never starve a dump: every available registered
      object is listed exactly once, in index order. */
  lemma DumpComplete(shown: set<nat>, size: nat -> nat, caps: nat -> nat)
    requires forall k, n | k in shown :: size(k) <= caps(n)
    ensures var d := Dump(Wanted(shown, 0), size, caps, 0);
      && (forall k :: k in shown <==> k in d)
      && (forall i, j | 0 <= i < j < |d| :: d[i] < d[j])
  {
    WantedMeaning(shown, 0);
    NeverStarves(shown, Wanted(shown, 0), size, caps, 0);
    DumpExact(Wanted(shown, 0), size, caps, 0);
  }

  lemma {:induction false} NeverStarves(shown: set<nat>, owed: seq<nat>, size: nat -> nat, caps: nat -> nat, call: nat)
    requires forall k, n | k in shown :: size(k) <= caps(n)
    requires forall k | k in owed :: k in shown
    ensures !Starves(owed, size, caps, call)
    decreases |owed|
  {
    if owed != [] {
      var msgs := Deliver(owed, size, caps(call));
      DeliverPrefix(owed, size, caps(call));
      assert size(owed[0]) <= caps(call);
      NeverStarves(shown, owed[|msgs|..], size, caps, call + 1);
    }
  }

  /** The pins a dump shows. */
  ghost function ShownPins(g: Graph): set<nat> {
    set p | p in g.pins && Available(g, p)
  }

  /** A pin dump over buffers that hold any single message lists the available pins, and each
      of them has a device to report on. */
  lemma PinDumpComplete(g: Graph, size: nat -> nat, caps: nat -> nat, p: nat)
    requires Inv(g) && p in g.pins
    requires forall q, n | q in g.pins :: size(q) <= caps(n)
    ensures p in Dump(Wanted(ShownPins(g), 0), size, caps, 0) <==> Available(g, p)
    ensures p in Dump(Wanted(ShownPins(g), 0), size, caps, 0) ==> g.pins[p].dpllRefs != map[]
  {
    DumpComplete(ShownPins(g), size, caps);
    if Available(g, p) {
      AvailableHasDevice(g, p);
    }
  }
}
