/** Asynchronous accounting of offloaded IPv4 routes (netdevsim/fib.c).  The notifier charges
    a counter when the kernel installs or removes a route; a worker applies the queued events
    to the table later and gives a charge back when an event turns out to replace an entry.

    The counter and the table are each touched once per event, so a queued event is one step
    of the worker, and notifier and worker steps interleave freely. */
module FibAccounting {
  import opened Prelude

  datatype Key = Key(dst: nat, prefixLen: nat, table: nat)
  datatype Route = Route(info: nat, dscp: nat, kind: nat)

  datatype Event = Replace(key: Key, route: Route) | Delete(key: Key)

  /** Ways a notification can fail before it is queued; only deletions meet the second. */
  datatype Veto = Accepted | NoEventMemory | DeleteFault

  /** Ways the worker can fail to install a route. */
  datatype Fault = NoFault | Refused | NoMemory | HashFailure

  type Table = map<Key, Route>

  /** pending is everything not yet applied: the batch the worker has spliced off, then the queue.
      kernel is what the kernel holds; flushDue tells that a flush of the table is scheduled. */
  datatype State = State(num: nat, max: nat, table: Table, pending: seq<Event>, kernel: Table, flushDue: bool)

  // ---- what the pending events will do --------------------------------------------

  function Apply(t: Table, e: Event): Table {
    match e
    case Replace(k, r) => t[k := r]
    case Delete(k) => t - {k}
  }

  function Drain(t: Table, es: seq<Event>): Table
    decreases |es|
  {
    if es == [] then t else Drain(Apply(t, es[0]), es[1..])
  }

  predicate Hit(t: Table, e: Event) {
    e.Replace? && e.key in t
  }

  /** How many pending events will find an entry to replace. */
  function Hits(t: Table, es: seq<Event>): nat
    decreases |es|
  {
    if es == [] then 0 else (if Hit(t, es[0]) then 1 else 0) + Hits(Apply(t, es[0]), es[1..])
  }

  lemma {:induction false} DrainAppend(t: Table, es: seq<Event>, e: Event)
    ensures Drain(t, es + [e]) == Apply(Drain(t, es), e)
    decreases |es|
  {
    if es == [] {
      assert es + [e] == [e];
      assert [e][1..] == [];
    } else {
      assert (es + [e])[1..] == es[1..] + [e];
      DrainAppend(Apply(t, es[0]), es[1..], e);
    }
  }

  lemma {:induction false} HitsAppend(t: Table, es: seq<Event>, e: Event)
    ensures Hits(t, es + [e]) == Hits(t, es) + if Hit(Drain(t, es), e) then 1 else 0
    decreases |es|
  {
    if es == [] {
      assert es + [e] == [e];
      assert [e][1..] == [];
    } else {
      assert (es + [e])[1..] == es[1..] + [e];
      HitsAppend(Apply(t, es[0]), es[1..], e);
    }
  }

  /** The next pending event on key k would replace an entry for it. */
  predicate ReplacedNext(k: Key, es: seq<Event>) {
    es != [] && if es[0].key == k then es[0].Replace? else ReplacedNext(k, es[1..])
  }

  /** An entry more in the table is one hit more exactly when the next event on its key is a
      replacement. */
  lemma {:induction false} HitsOfEntry(t: Table, k: Key, r: Route, es: seq<Event>)
    requires k !in t
    ensures Hits(t[k := r], es) == Hits(t, es) + if ReplacedNext(k, es) then 1 else 0
    decreases |es|
  {
    if es != [] {
      var e := es[0];
      if e.key == k {
        assert Apply(t[k := r], e) == Apply(t, e);
      } else {
        match e {
          case Replace(j, s) => assert t[k := r][j := s] == t[j := s][k := r];
          case Delete(j) => assert t[k := r] - {j} == (t - {j})[k := r];
        }
        HitsOfEntry(Apply(t, e), k, r, es[1..]);
      }
    }
  }

  lemma {:induction false} HitsOfKeys(t: Table, u: Table, es: seq<Event>)
    requires t.Keys == u.Keys
    ensures Hits(t, es) == Hits(u, es)
    decreases |es|
  {
    if es != [] {
      HitsOfKeys(Apply(t, es[0]), Apply(u, es[0]), es[1..]);
    }
  }

  // ---- one step -----------------------------------------------------------------------

  /** nsim_fib_account: a charge fails exactly at the limit, a refund stops at zero. */
  function Charge(num: nat, max: nat): Option<nat> {
    if num == max then None else Some(num + 1)
  }

  function Refund(num: nat): nat {
    if num > 0 then num - 1 else 0
  }

  datatype Step = Notify(e: Event, veto: Veto) | Work(fault: Fault) | Flush

  /** The kernel removes only routes it has; a flush runs once scheduled. */
  ghost predicate Legal(s: State, step: Step) {
    match step
    case Notify(Delete(k), _) => k in s.kernel
    case Notify(Replace(_, _), _) => true
    case Work(_) => s.pending != []
    case Flush => s.flushDue
  }

  /** The notifier: a refused replacement is not installed by the kernel; a deletion cannot be
      refused, and one that could not be queued schedules a flush. */
  function Notified(s: State, e: Event, veto: Veto): (State, Errno) {
    match e
    case Replace(k, r) =>
      if veto == NoEventMemory then (s, ENOMEM)
      else
        (match Charge(s.num, s.max)
         case None => (s, ENOSPC)
         case Some(n) => (s.(num := n, pending := s.pending + [e], kernel := s.kernel[k := r]), Ok))
    case Delete(k) =>
      if veto == NoEventMemory then (s.(kernel := s.kernel - {k}, flushDue := true), ENOMEM)
      else if veto == DeleteFault then (s.(kernel := s.kernel - {k}, flushDue := true), EINVAL)
      else (s.(num := Refund(s.num), pending := s.pending + [e], kernel := s.kernel - {k}), Ok)
  }

  /** What a notification does, spelled out. */
  lemma NotifiedExactly(s: State, e: Event, veto: Veto)
    ensures var (t, err) := Notified(s, e, veto);
      && t.table == s.table
      && (err == Ok <==>
            veto != NoEventMemory && !(e.Replace? && s.num == s.max) && !(e.Delete? && veto == DeleteFault))
      && (err == Ok ==> t.pending == s.pending + [e] && t.flushDue == s.flushDue)
      && (err != Ok ==> t.pending == s.pending && t.num == s.num && t.flushDue == (s.flushDue || e.Delete?))
      && (err == Ok ==> t.num == if e.Replace? then s.num + 1 else if s.num > 0 then s.num - 1 else 0)
      && t.kernel == if e.Delete? then s.kernel - {e.key} else if err == Ok then s.kernel[e.key := e.route]
        else s.kernel
  {
  }

  /** What the worker does, spelled out. */
  lemma WorkedExactly(s: State, fault: Fault)
    requires s.pending != []
    ensures var e, t := s.pending[0], Worked(s, fault);
      && t.kernel == s.kernel && t.pending == s.pending[1..]
      && (e.Delete? ==> t.table == s.table - {e.key} && t.num == s.num)
      && (e.Replace? ==>
            t.table == (if fault == NoFault then s.table[e.key := e.route] else s.table)
            && t.num == if s.num > 0 && (fault == HashFailure || (fault == NoFault && e.key in s.table))
                        then s.num - 1 else s.num)
  {
  }

  /** nsim_fib_flush_work: every entry is freed and given back. */
  function Flushed(s: State): State {
    s.(num := if s.num >= |s.table| then s.num - |s.table| else 0, table := map[], flushDue := false)
  }

  /** The worker on the oldest event.  A replacement refused or out of memory gives no charge
      back; a failed insertion does, and a failed replacement has already done so. */
  function Worked(s: State, fault: Fault): State
    requires s.pending != []
  {
    var e := s.pending[0];
    var s1 := s.(pending := s.pending[1..]);
    match e
    case Delete(k) => s1.(table := s.table - {k})
    case Replace(k, r) =>
      if fault == Refused || fault == NoMemory then s1
      else if k in s.table then
        s1.(num := Refund(s.num), table := if fault == HashFailure then s.table else s.table[k := r])
      else if fault == HashFailure then s1.(num := Refund(s.num))
      else s1.(table := s.table[k := r])
  }

  lemma FlushedExactly(s: State)
    ensures var t := Flushed(s);
      t == s.(table := map[], flushDue := false, num := t.num) && t.num == if s.num >= |s.table|
        then s.num - |s.table| else 0
  {
  }

  function Taken(s: State, step: Step): State
    requires step.Work? ==> s.pending != []
  {
    match step
    case Notify(e, v) => Notified(s, e, v).0
    case Work(f) => Worked(s, f)
    case Flush => Flushed(s)
  }

  // ---- the balance ------------------------------------------------------------------------

  ghost predicate Balanced(s: State) {
    && s.num == |s.kernel| + Hits(s.table, s.pending)
    && Drain(s.table, s.pending) == s.kernel
    && s.num <= s.max
  }

  lemma Sizes(t: Table, k: Key, x: Route)
    ensures |t[k := x]| == |t| + if k in t then 0 else 1
    ensures k in t ==> |t - {k}| == |t| - 1
  {
    assert t[k := x].Keys == t.Keys + {k};
    assert (t - {k}).Keys == t.Keys - {k};
    if k in t {
      assert t.Keys + {k} == t.Keys;
    }
  }

  lemma NotifyBalances(s: State, e: Event)
    requires Balanced(s) && Legal(s, Notify(e, Accepted))
    ensures Balanced(Notified(s, e, Accepted).0) && Notified(s, e, Accepted).0.max == s.max
    ensures Notified(s, e, Accepted).1 != Ok <==> e.Replace? && |s.kernel| + Hits(s.table, s.pending) == s.max
    ensures e.Delete? ==> s.num > 0
  {
    hide Hits, Drain;
    HitsAppend(s.table, s.pending, e);
    DrainAppend(s.table, s.pending, e);
    Sizes(s.kernel, e.key, if e.Replace? then e.route else Route(0, 0, 0));
  }

  lemma WorkBalances(s: State)
    requires Balanced(s) && s.pending != []
    ensures Balanced(Worked(s, NoFault)) && Worked(s, NoFault).max == s.max
    ensures Hit(s.table, s.pending[0]) ==> s.num > 0
  {
    assert Worked(s, NoFault).table == Apply(s.table, s.pending[0]);
  }

  /** The step meets no failure. */
  predicate Smooth(step: Step) {
    match step
    case Notify(e, veto) => veto == Accepted
    case Work(fault) => fault == NoFault
    case Flush => false
  }

  ghost predicate LegalRun(s: State, steps: seq<Step>)
    decreases |steps|
  {
    steps == [] || (Legal(s, steps[0]) && LegalRun(Taken(s, steps[0]), steps[1..]))
  }

  function Run(s: State, steps: seq<Step>): State
    requires LegalRun(s, steps)
    decreases |steps|
  {
    if steps == [] then s else Run(Taken(s, steps[0]), steps[1..])
  }

  lemma {:induction false} RunBalances(s: State, steps: seq<Step>)
    requires Balanced(s) && LegalRun(s, steps) && forall i | 0 <= i < |steps| :: Smooth(steps[i])
    ensures Balanced(Run(s, steps)) && Run(s, steps).max == s.max
    decreases |steps|
  {
    hide Balanced, Notified, Worked;
    if steps != [] {
      assert Smooth(steps[0]);
      match steps[0] {
        case Notify(e, _) => NotifyBalances(s, e);
        case Work(_) => WorkBalances(s);
      }
      RunBalances(Taken(s, steps[0]), steps[1..]);
    }
  }

  function Empty(max: nat): State {
    State(0, max, map[], [], map[], false)
  }

  /** For every interleaving of notifier and worker that meets no failure, from an empty table:
      the counter is the number of routes the kernel holds plus the replacements still to be
      recognised, it never exceeds the limit, draining the queue yields the kernel's routes, and
      once the queue is empty the counter is the size of the table. */
  lemma EveryInterleavingBalances(max: nat, steps: seq<Step>)
    requires LegalRun(Empty(max), steps) && forall i | 0 <= i < |steps| :: Smooth(steps[i])
    ensures var s := Run(Empty(max), steps);
      && s.num == |s.kernel| + Hits(s.table, s.pending) && s.num <= max
      && Drain(s.table, s.pending) == s.kernel
      && (s.pending == [] ==> s.table == s.kernel && s.num == |s.table|)
  {
    RunBalances(Empty(max), steps);
  }

  // ---- what failures cost -------------------------------------------------------------------

  /** Charges held beyond what the kernel's routes and the recognisable replacements explain. */
  function Excess(s: State): int {
    s.num - |s.kernel| - Hits(s.table, s.pending)
  }

  /** The exact price of a failed replacement: a refused or memory-starved one leaks its charge
      exactly when it should have replaced an entry, or when the next event on the route is
      another replacement; a failed hash operation gives a charge back, unless none is left. */
  lemma FailedReplaceCost(s: State, fault: Fault)
    requires s.pending != [] && s.pending[0].Replace? && fault != NoFault
    ensures Excess(Worked(s, fault)) == Excess(s)
      + (if s.pending[0].key in s.table || ReplacedNext(s.pending[0].key, s.pending[1..]) then 1 else 0)
      - (if fault == HashFailure && s.num > 0 then 1 else 0)
  {
    var e, rest := s.pending[0], s.pending[1..];
    if e.key in s.table {
      HitsOfKeys(s.table, s.table[e.key := e.route], rest);
    } else {
      HitsOfEntry(s.table, e.key, e.route, rest);
    }
  }

  lemma NotifiedCost(s: State, e: Event, veto: Veto)
    requires Legal(s, Notify(e, veto))
    ensures Excess(Notified(s, e, veto).0) == Excess(s) + NotifyCost(s, e, veto)
  {
    hide Hits, Drain;
    HitsAppend(s.table, s.pending, e);
    Sizes(s.kernel, e.key, if e.Replace? then e.route else Route(0, 0, 0));
  }

  /** What a notification costs: a deletion that is not queued, or that finds nothing to give
      back, leaves one charge too many; a replacement leaks or overpays where the kernel's routes
      and the drained table disagree about its key. */
  ghost function NotifyCost(s: State, e: Event, veto: Veto): int {
    if e.Delete? then (if veto != Accepted || s.num == 0 then 1 else 0)
    else if veto == NoEventMemory || s.num == s.max then 0
    else (if e.key in s.kernel then 1 else 0) - (if e.key in Drain(s.table, s.pending) then 1 else 0)
  }

  /** What one worker step costs. */
  function WorkCost(s: State, fault: Fault): int
    requires s.pending != []
  {
    var e, rest := s.pending[0], s.pending[1..];
    if e.Delete? then 0
    else if fault == NoFault then (if e.key in s.table && s.num == 0 then 1 else 0)
    else
      (if e.key in s.table || ReplacedNext(e.key, rest) then 1 else 0)
      - (if fault == HashFailure && s.num > 0 then 1 else 0)
  }

  /** What a flush costs: its refunds, as far as there is something to give back, and the
      replacements that will no longer find their entry. */
  ghost function FlushCost(s: State): int {
    Hits(s.table, s.pending) - Hits(map[], s.pending) - if s.num >= |s.table| then |s.table| else s.num
  }

  ghost function Cost(s: State, step: Step): int
    requires Legal(s, step)
  {
    match step
    case Notify(e, veto) => NotifyCost(s, e, veto)
    case Work(fault) => WorkCost(s, fault)
    case Flush => FlushCost(s)
  }

  ghost function Ledger(s: State, steps: seq<Step>): int
    requires LegalRun(s, steps)
    decreases |steps|
  {
    if steps == [] then 0 else Cost(s, steps[0]) + Ledger(Taken(s, steps[0]), steps[1..])
  }

  lemma StepCost(s: State, step: Step)
    requires Legal(s, step)
    ensures Excess(Taken(s, step)) == Excess(s) + Cost(s, step)
  {
    match step
    case Notify(e, veto) => NotifiedCost(s, e, veto);
    case Work(fault) =>
      if fault != NoFault && s.pending[0].Replace? {
        FailedReplaceCost(s, fault);
      }
    case Flush =>
  }

  /** The counter after any run at all, every kind of failure included, is the kernel's routes plus
      the replacements still to be recognised plus the price of what went wrong. */
  lemma {:induction false} LedgerExact(s: State, steps: seq<Step>)
    requires LegalRun(s, steps)
    ensures var t := Run(s, steps);
      t.num == |t.kernel| + Hits(t.table, t.pending) + Excess(s) + Ledger(s, steps)
    decreases |steps|
  {
    hide Hits, Taken, Cost;
    if steps != [] {
      StepCost(s, steps[0]);
      LedgerExact(Taken(s, steps[0]), steps[1..]);
    }
  }

  /** A deletion that could not be queued, once the queue is worked off and the flush it schedules
      has run: the counter is zero like the table, whatever routes the kernel still holds. */
  lemma FailedDeleteFlushes(s: State, k: Key, veto: Veto)
    requires Balanced(s) && s.pending == [] && k in s.kernel && veto != Accepted
    ensures var t := Notified(s, Delete(k), veto).0;
      && t.flushDue && Flushed(t).num == 0 && Flushed(t).table == map[]
      && Flushed(t).kernel == s.kernel - {k} && Excess(Flushed(t)) == 1 - |s.kernel|
  {
    NotifiedCost(s, Delete(k), veto);
    assert (s.kernel - {k}).Keys == s.kernel.Keys - {k};
  }

  lemma {:induction false} DrainGrows(t: Table, u: Table, es: seq<Event>)
    requires t.Keys <= u.Keys
    ensures Drain(t, es).Keys <= Drain(u, es).Keys
    decreases |es|
  {
    if es != [] {
      DrainGrows(Apply(t, es[0]), Apply(u, es[0]), es[1..]);
    }
  }

  /** Notifications go through, and the worker meets nothing but refusals and want of memory. */
  predicate NoRepair(step: Step) {
    match step
    case Notify(_, veto) => veto == Accepted
    case Work(fault) => fault != HashFailure
    case Flush => false
  }

  ghost predicate DrainsWithin(s: State) {
    Drain(s.table, s.pending).Keys <= s.kernel.Keys
  }

  lemma NoRepairStep(s: State, step: Step)
    requires DrainsWithin(s) && Legal(s, step) && NoRepair(step)
    ensures DrainsWithin(Taken(s, step)) && Cost(s, step) >= 0
  {
    match step
    case Notify(e, _) => DrainAppend(s.table, s.pending, e);
    case Work(fault) =>
      var e, rest := s.pending[0], s.pending[1..];
      if fault != NoFault && e.Replace? {
        DrainGrows(s.table, Apply(s.table, e), rest);
      }
  }

  /** What has leaked stays: without a flush or a failed hash operation the excess never falls. */
  lemma {:induction false} LeaksStay(s: State, steps: seq<Step>)
    requires DrainsWithin(s) && LegalRun(s, steps) && forall i | 0 <= i < |steps| :: NoRepair(steps[i])
    ensures DrainsWithin(Run(s, steps)) && Excess(Run(s, steps)) >= Excess(s)
    decreases |steps|
  {
    hide Hits, Drain, Taken, Cost, Excess, DrainsWithin;
    if steps != [] {
      assert NoRepair(steps[0]);
      NoRepairStep(s, steps[0]);
      StepCost(s, steps[0]);
      LeaksStay(Taken(s, steps[0]), steps[1..]);
    }
  }

  /** A replacement refused while its route is installed is charged for good: after any later run
      without a flush or a failed hash operation the counter exceeds what routes and pending hits
      explain. */
  lemma RefusedReplaceStays(s: State, fault: Fault, later: seq<Step>)
    requires Balanced(s) && s.pending != [] && Hit(s.table, s.pending[0]) && (fault == Refused || fault == NoMemory)
    requires LegalRun(Worked(s, fault), later) && forall i | 0 <= i < |later| :: NoRepair(later[i])
    ensures var t := Run(Worked(s, fault), later); t.num >= |t.kernel| + Hits(t.table, t.pending) + 1
  {
    NoRepairStep(s, Work(fault));
    FailedReplaceCost(s, fault);
    LeaksStay(Worked(s, fault), later);
  }

  /** One such leak: the counter is at its limit with one route and room for two. */
  lemma RefusedReplaceLeaks(k: Key, r: Route, r': Route)
    requires r != r'
    ensures var s := State(1, 2, map[k := r], [], map[k := r], false);
      var t := Worked(Notified(s, Replace(k, r'), Accepted).0, Refused);
      && Balanced(s) && t.pending == [] && |t.kernel| == |t.table| == 1 && t.num == 2
      && forall e: Event | e.Replace? :: Notified(t, e, Accepted).1 == ENOSPC
  {
    var s := State(1, 2, map[k := r], [], map[k := r], false);
    assert s.kernel.Keys == {k};
    var t := Worked(Notified(s, Replace(k, r'), Accepted).0, Refused);
    assert t.kernel.Keys == {k};
  }

  /** A whole work item: the n oldest events one after the other. */
  function WorkedAll(s: State, n: nat, faults: nat -> Fault): (r: State)
    requires n <= |s.pending|
    ensures r.pending == s.pending[n..] && r.kernel == s.kernel
  {
    if n == 0 then s else Worked(WorkedAll(s, n - 1, faults), faults(n - 1))
  }

  /** A work item that meets no failure leaves table and counter at what the kernel holds. */
  lemma {:induction false} WorkedOff(s: State, n: nat)
    requires Balanced(s) && n <= |s.pending|
    ensures var t := WorkedAll(s, n, _ => NoFault);
      Balanced(t) && (n == |s.pending| ==> t.pending == [] && t.table == s.kernel && t.num == |t.table|)
  {
    if n > 0 {
      WorkedOff(s, n - 1);
      WorkBalances(WorkedAll(s, n - 1, _ => NoFault));
    }
  }

  // ---- the driver ------------------------------------------------------------------------------

  class FibCounter {
    const max: nat
    var num: nat
    var table: Table
    var queue: seq<Event>
    /** The batch the worker has spliced off the queue. */
    var batch: seq<Event>
    var flushDue: bool
    ghost var kernel: Table

    constructor (max: nat)
      ensures View() == Empty(max)
    {
      this.max, num, table, queue, batch, flushDue, kernel := max, 0, map[], [], [], false, map[];
    }

    ghost function View(): State
      reads this
    {
      State(num, max, table, batch + queue, kernel, flushDue)
    }

    /** nsim_fib_account. */
    method Account(add: bool) returns (e: Errno)
      modifies this`num
      ensures add ==> e == (if Charge(old(num), max).None? then ENOSPC else Ok)
      ensures add ==> num == if e == Ok then old(num) + 1 else old(num)
      ensures !add ==> e == Ok && num == Refund(old(num))
    {
      if add {
        if num == max {
          return ENOSPC;
        }
        num := num + 1;
      } else if num > 0 {
        num := num - 1;
      }
      return Ok;
    }

    /** nsim_fib_event_schedule_work with nsim_fib4_prepare_event; the kernel follows the verdict
        on a replacement and deletes a route in any case. */
    method NotifyEvent(e: Event, veto: Veto) returns (err: Errno)
      modifies this
      ensures (View(), err) == Notified(old(View()), e, veto)
    {
      if e.Delete? {
        kernel := kernel - {e.key};
      }
      if veto == NoEventMemory {
        err := ENOMEM;
      } else if e.Replace? {
        err := Account(true);
        if err == Ok {
          kernel := kernel[e.key := e.route];
        }
      } else if veto == DeleteFault {
        err := EINVAL;
      } else {
        err := Account(false);
      }
      if err != Ok {
        if e.Delete? {
          flushDue := true;
        }
        return;
      }
      assert batch + (queue + [e]) == (batch + queue) + [e];
      queue := queue + [e];
    }

    /** nsim_fib_flush_work, after the event work: each entry is given back and removed. */
    method FlushWork()
      modifies this`num, this`table, this`flushDue
      ensures View() == Flushed(old(View()))
    {
      flushDue := false;
      while table.Keys != {}
        invariant !flushDue
        invariant num == if old(num) >= |old(table)| - |table| then old(num) - (|old(table)| - |table|) else 0
        invariant |table| <= |old(table)|
        decreases |table|
      {
        var k :| k in table;
        assert (table - {k}).Keys == table.Keys - {k};
        table := table - {k};
        var _ := Account(false);
      }
      assert table == map[];
    }

    /** The splice that starts nsim_fib_event_work. */
    method Splice()
      requires batch == []
      modifies this`queue, this`batch
      ensures View() == old(View()) && queue == []
    {
      batch, queue := queue, [];
      assert batch + queue == old(batch + queue);
    }

    /** One turn of the loop in nsim_fib_event_work. */
    method WorkOne(fault: Fault)
      requires batch != []
      modifies this`num, this`table, this`batch
      ensures View() == Worked(old(View()), fault)
    {
      var e := batch[0];
      assert (batch + queue)[0] == e && (batch + queue)[1..] == batch[1..] + queue;
      batch := batch[1..];
      match e {
        case Replace(k, r) => Insert(k, r, fault);
        case Delete(k) =>
          if k in table {
            table := table - {k};
          } else {
            assert table - {k} == table;
          }
      }
    }

    /** nsim_fib4_rt_insert with nsim_fib4_rt_add and nsim_fib4_rt_replace. */
    method Insert(k: Key, r: Route, fault: Fault)
      modifies this`num, this`table
      ensures num == if (fault == NoFault && k !in old(table)) || fault == Refused || fault == NoMemory
        then old(num) else Refund(old(num))
      ensures table == if fault == NoFault then old(table)[k := r] else old(table)
    {
      if fault == Refused || fault == NoMemory {
        return;
      }
      if k !in table {
        if fault == HashFailure {
          var _ := Account(false);
          return;
        }
        table := table[k := r];
      } else {
        var e := Account(false);
        if e != Ok || fault == HashFailure {
          return;
        }
        table := table[k := r];
      }
    }

    /** nsim_fib_event_work: everything queued when it starts is applied, each event with its own
        luck. */
    method EventWork(faults: nat -> Fault)
      requires batch == []
      modifies this`num, this`table, this`queue, this`batch
      ensures batch == [] && queue == []
      ensures View() == WorkedAll(old(View()), |old(queue)|, faults)
      ensures old(Balanced(View())) && (forall i :: faults(i) == NoFault) ==> table == kernel && num == |table|
    {
      hide Hits, Drain, Worked;
      ghost var s := View();
      assert s.pending == queue;
      Splice();
      var n := 0;
      while batch != []
        invariant queue == [] && n + |batch| == |s.pending| && batch == s.pending[n..]
        invariant View() == WorkedAll(s, n, faults)
        decreases |batch|
      {
        WorkOne(faults(n));
        n := n + 1;
        assert View() == WorkedAll(s, n, faults) && View().pending == s.pending[n..];
        assert batch + queue == batch;
      }
      if Balanced(s) && forall i :: faults(i) == NoFault {
        SameFaults(s, |s.pending|, faults);
        WorkedOff(s, |s.pending|);
      }
    }
  }

  lemma {:induction false} SameFaults(s: State, n: nat, faults: nat -> Fault)
    requires n <= |s.pending| && forall i :: faults(i) == NoFault
    ensures WorkedAll(s, n, faults) == WorkedAll(s, n, _ => NoFault)
  {
    if n > 0 {
      SameFaults(s, n - 1, faults);
    }
  }
}
