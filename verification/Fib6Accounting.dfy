/** Asynchronous accounting of offloaded IPv6 routes (netdevsim/fib.c).  It differs from IPv4 in
    that appended nexthops are not charged, that every removal gives back a whole charge, whether
    it takes a route, some of its nexthops or nothing the driver has, and that routes with a source
    prefix are charged but never offloaded. */
module Fib6Accounting {
  import opened Prelude
  import H = FibHolds

  datatype Key = Key(dst: nat, prefixLen: nat, table: nat, source: Option<nat>)

  /** The objects an event names are the nexthops replaced, appended or deleted. */
  datatype Event = Event(kind: H.Kind, key: Key, objs: seq<nat>)

  /** Ways a notification can fail before it is queued; only deletions meet the second. */
  datatype Veto = Accepted | NoEventMemory | DeleteFault

  /** Ways the worker can fail to install or extend a route. */
  datatype Fault = NoFault | Refused | NoMemory | HashFailure

  type Table = map<Key, multiset<nat>>

  /** table is the driver's, kernel is what the kernel holds; flushDue tells that a flush is due. */
  datatype State = State(num: nat, max: nat, table: Table, pending: seq<Event>, kernel: Table, flushDue: bool)

  // ---- one route ------------------------------------------------------------------------

  function Get(t: Table, k: Key): Option<multiset<nat>> {
    if k in t then Some(t[k]) else None
  }

  function Put(t: Table, k: Key, c: Option<multiset<nat>>): Table {
    if c.Some? then t[k := c.value] else t - {k}
  }

  /** What an event makes of the nexthops of its route.  A deletion that names as many as there are
      deletes the route, whichever they are; any other takes away the named ones it finds. */
  function Evolve(c: Option<multiset<nat>>, e: Event): Option<multiset<nat>> {
    match e.kind
    case Replace => Some(multiset(e.objs))
    case Append => if c.Some? then Some(c.value + multiset(e.objs)) else None
    case Delete => if c.None? || |e.objs| == |c.value| then None else Some(c.value - multiset(e.objs))
  }

  /** The worker's failures as the driver's holds see them. */
  function LuckOf(e: Event, fault: Fault): H.Luck {
    H.Luck(fault != Refused, fault != NoMemory, if fault == NoMemory then 0 else |e.objs|,
           fault != HashFailure || e.kind != H.Replace)
  }

  /** This is what the driver's holds say of an IPv6 route, source prefix and failures included. */
  lemma EvolveIsWorked(es: seq<H.Entry>, e: Event, k: H.Key, fault: Fault)
    requires H.DistinctKeys(es) && k.family == H.V6 && e.objs != []
    ensures var r := H.Worked(es, H.Event(e.kind, k, e.objs, e.key.source != None), LuckOf(e, fault));
      H.ObjectsUnder(r, k) ==
        if e.key.source != None || Failing(e, fault) then H.ObjectsUnder(es, k) else Evolve(H.ObjectsUnder(es, k), e)
  {
    hide H.Worked, H.Under, H.WithoutAll, H.DistinctKeys;
    var src, luck := e.key.source != None, LuckOf(e, fault);
    match e.kind
    case Replace => H.InstalledExactly(es, k, e.objs, src, luck);
    case Append => H.ExtendedExactly(es, k, e.objs, src, luck);
    case Delete =>
      H.DeletedExactly(es, k, e.objs, src, luck);
      var c := H.Under(es, k);
      if c.Some? {
        H.WithoutAllCounts(c.value, e.objs);
        assert |multiset(c.value)| == |c.value|;
      }
  }

  predicate Offloaded(k: Key) { k.source.None? }

  /** The driver's table after an event. */
  function Apply(t: Table, e: Event): Table {
    if Offloaded(e.key) then Put(t, e.key, Evolve(Get(t, e.key), e)) else t
  }

  function Drain(t: Table, es: seq<Event>): Table
    decreases |es|
  {
    if es == [] then t else Drain(Apply(t, es[0]), es[1..])
  }

  predicate Hit(t: Table, e: Event) {
    e.kind == H.Replace && Offloaded(e.key) && e.key in t
  }

  function B(b: bool): int { if b then 1 else 0 }

  /** How many pending events will find a route to replace. */
  function Hits(t: Table, es: seq<Event>): nat
    decreases |es|
  {
    if es == [] then 0 else (if Hit(t, es[0]) then 1 else 0) + Hits(Apply(t, es[0]), es[1..])
  }

  lemma {:induction false} Appended(t: Table, es: seq<Event>, e: Event)
    ensures Drain(t, es + [e]) == Apply(Drain(t, es), e)
    ensures Hits(t, es + [e]) == Hits(t, es) + B(Hit(Drain(t, es), e))
    decreases |es|
  {
    if es == [] {
      assert es + [e] == [e] && [e][1..] == [];
    } else {
      assert (es + [e])[1..] == es[1..] + [e];
      Appended(Apply(t, es[0]), es[1..], e);
    }
  }

  /** A route with nexthops c is still there when the next replacement of it comes. */
  predicate Survives(c: Option<multiset<nat>>, k: Key, es: seq<Event>)
    decreases |es|
  {
    es != []
    && if es[0].key != k then Survives(c, k, es[1..])
       else if es[0].kind == H.Replace then c.Some?
       else Survives(Evolve(c, es[0]), k, es[1..])
  }

  /** Two states of one route differ in hits by whether they survive to the next replacement. */
  lemma {:induction false} HitsOfRoute(t: Table, k: Key, c: Option<multiset<nat>>, d: Option<multiset<nat>>,
    es: seq<Event>)
    requires Offloaded(k)
    ensures Hits(Put(t, k, c), es) - Hits(Put(t, k, d), es) == B(Survives(c, k, es)) - B(Survives(d, k, es))
    decreases |es|
  {
    if es != [] {
      var e, rest := es[0], es[1..];
      if e.key != k {
        OtherRoute(t, k, c, e);
        OtherRoute(t, k, d, e);
        HitsOfRoute(Apply(t, e), k, c, d, rest);
      } else {
        SameRoute(t, c, e);
        SameRoute(t, d, e);
        if e.kind != H.Replace {
          HitsOfRoute(t, k, Evolve(c, e), Evolve(d, e), rest);
        }
      }
    }
  }

  lemma PutsCommute(t: Table, k: Key, c: Option<multiset<nat>>, j: Key, d: Option<multiset<nat>>)
    requires j != k
    ensures Put(Put(t, k, c), j, d) == Put(Put(t, j, d), k, c)
  {
  }

  lemma OtherRoute(t: Table, k: Key, c: Option<multiset<nat>>, e: Event)
    requires e.key != k
    ensures Apply(Put(t, k, c), e) == Put(Apply(t, e), k, c) && Hit(Put(t, k, c), e) == Hit(t, e)
  {
    hide Evolve;
    var f := Evolve(Get(t, e.key), e);
    assert Get(Put(t, k, c), e.key) == Get(t, e.key);
    PutsCommute(t, k, c, e.key, f);
  }

  lemma SameRoute(t: Table, c: Option<multiset<nat>>, e: Event)
    requires Offloaded(e.key)
    ensures Apply(Put(t, e.key, c), e) == Put(t, e.key, Evolve(c, e))
    ensures Hit(Put(t, e.key, c), e) == (e.kind == H.Replace && c.Some?)
  {
    assert Put(Put(t, e.key, c), e.key, Evolve(c, e)) == Put(t, e.key, Evolve(c, e));
  }

  // ---- steps ------------------------------------------------------------------------------

  datatype Step = Notify(e: Event, veto: Veto) | Work(fault: Fault) | Flush

  predicate Legal(s: State, step: Step) {
    match step
    case Notify(_, _) => true
    case Work(_) => s.pending != []
    case Flush => s.flushDue
  }

  function Refund(num: nat): nat {
    if num > 0 then num - 1 else 0
  }

  /** What the kernel holds after an event it has carried out. */
  function KernelAfter(s: State, e: Event): Table {
    Put(s.kernel, e.key, Evolve(Get(s.kernel, e.key), e))
  }

  /** nsim_fib_event_schedule_work with nsim_fib6_prepare_event.  The kernel gives up a refused
      replacement or append; it deletes whatever the verdict.  A deletion may name a route the
      kernel does not hold: it cleans up after a refused multipath addition. */
  function Notified(s: State, e: Event, veto: Veto): (State, Errno) {
    if e.kind == H.Delete && veto != Accepted then
      (s.(kernel := KernelAfter(s, e), flushDue := true), if veto == DeleteFault then EINVAL else ENOMEM)
    else if veto == NoEventMemory then (s, ENOMEM)
    else if e.kind == H.Replace && s.num == s.max then (s, ENOSPC)
    else
      (s.(num := if e.kind == H.Replace then s.num + 1 else if e.kind == H.Delete then Refund(s.num) else s.num,
          pending := s.pending + [e], kernel := KernelAfter(s, e)), Ok)
  }

  /** The worker installs or extends nothing: a failed deletion does not exist, and a hash operation
      fails only for a replacement. */
  predicate Failing(e: Event, fault: Fault) {
    Offloaded(e.key) && match e.kind
                        case Replace => fault != NoFault
                        case Append => fault == Refused || fault == NoMemory
                        case Delete => false
  }

  /** nsim_fib6_event on the oldest event. */
  function Worked(s: State, fault: Fault): State
    requires s.pending != []
  {
    var e := s.pending[0];
    var refunds := if Failing(e, fault) then e.kind == H.Replace && fault == HashFailure else Hit(s.table, e);
    s.(num := if refunds then Refund(s.num) else s.num,
       table := if Failing(e, fault) then s.table else Apply(s.table, e),
       pending := s.pending[1..])
  }

  /** nsim_fib_flush_work: every entry is freed and given back. */
  function Flushed(s: State): State {
    s.(num := if s.num >= |s.table| then s.num - |s.table| else 0, table := map[], flushDue := false)
  }

  lemma FlushedExactly(s: State)
    ensures var t := Flushed(s);
      t == s.(table := map[], flushDue := false, num := t.num) && t.num == if s.num >= |s.table|
        then s.num - |s.table| else 0
  {
  }

  function Taken(s: State, step: Step): State
    requires Legal(s, step)
  {
    match step
    case Notify(e, veto) => Notified(s, e, veto).0
    case Work(fault) => Worked(s, fault)
    case Flush => Flushed(s)
  }

  predicate LegalRun(s: State, steps: seq<Step>)
    decreases |steps|
  {
    steps == [] || (Legal(s, steps[0]) && LegalRun(Taken(s, steps[0]), steps[1..]))
  }

  function Run(s: State, steps: seq<Step>): State
    requires LegalRun(s, steps)
    decreases |steps|
  {
    if steps == [] then s else Run(Taken(s, steps[0]), steps[1..])
  }

  /** What the worker does to table and counter, without the model's own words: routes with a source
      prefix are passed over; a replacement is installed, and gives back a charge when it finds its
      route or a hash operation fails; */
  lemma ReplaceWorked(s: State, fault: Fault)
    requires s.pending != [] && s.pending[0].kind == H.Replace
    ensures var e, t := s.pending[0], Worked(s, fault);
      && t.kernel == s.kernel && t.pending == s.pending[1..]
      && (if e.key.source != None then t.table == s.table && t.num == s.num
          else t.table == (if fault == NoFault then s.table[e.key := multiset(e.objs)] else s.table)
               && t.num == if s.num > 0 && (fault == HashFailure || (fault == NoFault && e.key in s.table))
                           then s.num - 1 else s.num)
  {
  }

  /** a known route is extended; */
  lemma AppendWorked(s: State, fault: Fault)
    requires s.pending != [] && s.pending[0].kind == H.Append
    ensures var e, t := s.pending[0], Worked(s, fault);
      && t.kernel == s.kernel && t.pending == s.pending[1..] && t.num == s.num
      && t.table == if e.key.source == None && e.key in s.table && fault != Refused && fault != NoMemory
                    then s.table[e.key := s.table[e.key] + multiset(e.objs)] else s.table
  {
    var k := s.pending[0].key;
    assert k !in s.table ==> s.table - {k} == s.table;
  }

  /** and a route is removed when as many nexthops are named as it has, and reduced otherwise. */
  lemma DeleteWorked(s: State, fault: Fault)
    requires s.pending != [] && s.pending[0].kind == H.Delete
    ensures var e, t := s.pending[0], Worked(s, fault);
      && t.kernel == s.kernel && t.pending == s.pending[1..] && t.num == s.num
      && t.table == if e.key.source != None || e.key !in s.table then s.table
                    else if |e.objs| == |s.table[e.key]| then s.table - {e.key}
                    else s.table[e.key := s.table[e.key] - multiset(e.objs)]
  {
    var k := s.pending[0].key;
    assert k !in s.table ==> s.table - {k} == s.table;
  }

  /** What a notification does to counter, kernel and queue. */
  lemma NotifiedExactly(s: State, e: Event, veto: Veto)
    ensures var (t, err) := Notified(s, e, veto);
      && t.table == s.table
      && (err == Ok <==> veto != NoEventMemory && !(e.kind == H.Replace && s.num == s.max)
                         && !(e.kind == H.Delete && veto == DeleteFault))
      && (err == Ok ==> t.pending == s.pending + [e] && t.flushDue == s.flushDue)
      && (err != Ok ==> t.pending == s.pending && t.num == s.num && t.flushDue == (s.flushDue || e.kind == H.Delete))
      && (err != Ok && e.kind != H.Delete ==> t.kernel == s.kernel)
      && (err == Ok ==> t.num == if e.kind == H.Replace then s.num + 1
                                 else if e.kind == H.Delete && s.num > 0 then s.num - 1 else s.num)
      && (err == Ok && e.kind == H.Replace ==> t.kernel == s.kernel[e.key := multiset(e.objs)])
      && (e.kind == H.Delete && e.key !in s.kernel ==> t.kernel == s.kernel)
      && (e.kind == H.Delete && e.key in s.kernel && |e.objs| == |s.kernel[e.key]| ==> t.kernel == s.kernel - {e.key})
  {
    assert e.key !in s.kernel ==> s.kernel - {e.key} == s.kernel;
  }

  // ---- the price of every step -----------------------------------------------------------------

  function Excess(s: State): int {
    s.num - |s.kernel| - Hits(s.table, s.pending)
  }

  /** The deletion takes the last nexthops of a route the kernel holds. */
  predicate Whole(s: State, e: Event) {
    e.key in s.kernel && |e.objs| == |s.kernel[e.key]|
  }

  /** A deletion gives back one charge if there is one, and should do so exactly when it takes a whole
      route; a replacement is charged, and the charge is wanted where the kernel has a route more or
      the driver will find one to replace. */
  function NotifyPrice(s: State, e: Event, veto: Veto): int {
    match e.kind
    case Append => 0
    case Delete => B(Whole(s, e)) - B(veto == Accepted && s.num > 0)
    case Replace =>
      if veto == NoEventMemory || s.num == s.max then 0
      else B(e.key in s.kernel) - B(Hit(Drain(s.table, s.pending), e))
  }

  /** A success costs only a refund that finds nothing to give back; a failure costs what the route
      would have been replaced for, now and later, less what is given back. */
  function WorkPrice(s: State, fault: Fault): int
    requires s.pending != []
  {
    var e, rest := s.pending[0], s.pending[1..];
    var c := Get(s.table, e.key);
    if !Failing(e, fault) then B(Hit(s.table, e) && s.num == 0)
    else
      B(Hit(s.table, e)) + B(Survives(Evolve(c, e), e.key, rest)) - B(Survives(c, e.key, rest))
      - B(e.kind == H.Replace && fault == HashFailure && s.num > 0)
  }

  /** A flush gives back the driver's routes as far as it can, and replacements will miss theirs. */
  function FlushPrice(s: State): int {
    Hits(s.table, s.pending) - Hits(map[], s.pending) - if s.num >= |s.table| then |s.table| else s.num
  }

  function Price(s: State, step: Step): int
    requires Legal(s, step)
  {
    match step
    case Notify(e, veto) => NotifyPrice(s, e, veto)
    case Work(fault) => WorkPrice(s, fault)
    case Flush => FlushPrice(s)
  }

  lemma Sizes(t: Table, k: Key, c: Option<multiset<nat>>)
    ensures |Put(t, k, c)| == |t| + B(c.Some?) - B(k in t)
  {
    if c.Some? {
      assert t[k := c.value].Keys == t.Keys + {k};
      if k in t { assert t.Keys + {k} == t.Keys; }
    } else {
      assert (t - {k}).Keys == t.Keys - {k};
      if k !in t { assert t.Keys - {k} == t.Keys; }
    }
  }

  lemma EvolveSome(c: Option<multiset<nat>>, e: Event)
    ensures Evolve(c, e).Some? <==> e.kind == H.Replace || (c.Some? && (e.kind == H.Delete ==> |e.objs| != |c.value|))
  {
  }

  lemma NotifyPriced(s: State, e: Event, veto: Veto)
    ensures Excess(Notified(s, e, veto).0) == Excess(s) + NotifyPrice(s, e, veto)
  {
    hide Hits, Drain, Evolve;
    var c := Get(s.kernel, e.key);
    Appended(s.table, s.pending, e);
    EvolveSome(c, e);
    Sizes(s.kernel, e.key, Evolve(c, e));
  }

  lemma FirstEvent(t: Table, es: seq<Event>)
    requires es != []
    ensures Hits(t, es) == B(Hit(t, es[0])) + Hits(Apply(t, es[0]), es[1..])
    ensures Drain(t, es) == Drain(Apply(t, es[0]), es[1..])
  {
  }

  lemma PutBack(t: Table, k: Key)
    ensures Put(t, k, Get(t, k)) == t
  {
  }

  lemma MissedEvent(t: Table, e: Event, rest: seq<Event>)
    requires Offloaded(e.key)
    ensures var c := Get(t, e.key);
      Hits(Apply(t, e), rest) - Hits(t, rest) == B(Survives(Evolve(c, e), e.key, rest)) - B(Survives(c, e.key, rest))
  {
    hide Hits, Evolve, Survives;
    var c := Get(t, e.key);
    HitsOfRoute(t, e.key, Evolve(c, e), c, rest);
    PutBack(t, e.key);
  }

  lemma WorkPriced(s: State, fault: Fault)
    requires s.pending != []
    ensures Excess(Worked(s, fault)) == Excess(s) + WorkPrice(s, fault)
  {
    hide Hits, Drain, Evolve, Survives, Apply;
    FirstEvent(s.table, s.pending);
    if Failing(s.pending[0], fault) {
      MissedEvent(s.table, s.pending[0], s.pending[1..]);
    }
  }

  /** What each step does to the balance, failures of every kind included. */
  lemma StepPrice(s: State, step: Step)
    requires Legal(s, step)
    ensures Excess(Taken(s, step)) == Excess(s) + Price(s, step)
  {
    match step
    case Notify(e, veto) => NotifyPriced(s, e, veto);
    case Work(fault) => WorkPriced(s, fault);
    case Flush =>
  }

  function Total(s: State, steps: seq<Step>): int
    requires LegalRun(s, steps)
    decreases |steps|
  {
    if steps == [] then 0 else Price(s, steps[0]) + Total(Taken(s, steps[0]), steps[1..])
  }

  predicate AlwaysBalanced(s: State, steps: seq<Step>)
    requires LegalRun(s, steps)
    decreases |steps|
  {
    Excess(s) == 0 && (steps != [] ==> AlwaysBalanced(Taken(s, steps[0]), steps[1..]))
  }

  predicate Free(s: State, steps: seq<Step>)
    requires LegalRun(s, steps)
    decreases |steps|
  {
    steps != [] ==> Price(s, steps[0]) == 0 && Free(Taken(s, steps[0]), steps[1..])
  }

  /** For every run at all: the counter is the kernel's routes plus the replacements that will hit plus
      the prices paid, and every state is balanced exactly when no step has a price. */
  lemma {:induction false} EveryRunPriced(s: State, steps: seq<Step>)
    requires LegalRun(s, steps)
    ensures var t := Run(s, steps); t.num == |t.kernel| + Hits(t.table, t.pending) + Excess(s) + Total(s, steps)
    ensures Excess(s) == 0 ==> (AlwaysBalanced(s, steps) <==> Free(s, steps))
    decreases |steps|
  {
    hide Hits, Taken, Price, Excess;
    if steps != [] {
      StepPrice(s, steps[0]);
      EveryRunPriced(Taken(s, steps[0]), steps[1..]);
      BalancedHere(Taken(s, steps[0]), steps[1..]);
    } else {
      ExcessIs(s);
    }
  }

  lemma BalancedHere(s: State, steps: seq<Step>)
    requires LegalRun(s, steps)
    ensures AlwaysBalanced(s, steps) ==> Excess(s) == 0
  {
  }

  lemma ExcessIs(s: State)
    ensures s.num == |s.kernel| + Hits(s.table, s.pending) + Excess(s)
  {
  }

  // ---- runs without failures -----------------------------------------------------------------------

  /** The step meets no failure but the limit. */
  predicate Smooth(step: Step) {
    match step
    case Notify(_, veto) => veto == Accepted
    case Work(fault) => fault == NoFault
    case Flush => false
  }

  function Offloadable(ks: Table): Table {
    map k | k in ks && Offloaded(k) :: ks[k]
  }

  /** Draining the queue yields the kernel's routes without a source prefix. */
  predicate Agrees(s: State) {
    Drain(s.table, s.pending) == Offloadable(s.kernel)
  }

  lemma OffloadableAfter(t: Table, k: Key, c: Option<multiset<nat>>)
    ensures Offloadable(Put(t, k, c)) == if Offloaded(k) then Put(Offloadable(t), k, c) else Offloadable(t)
    ensures Offloaded(k) ==> Get(Offloadable(t), k) == Get(t, k)
  {
  }

  lemma SmoothAgrees(s: State, step: Step)
    requires Agrees(s) && Legal(s, step) && Smooth(step)
    ensures Agrees(Taken(s, step))
  {
    hide Hits, Drain, Evolve;
    match step
    case Notify(e, _) =>
      Appended(s.table, s.pending, e);
      OffloadableAfter(s.kernel, e.key, Evolve(Get(s.kernel, e.key), e));
    case Work(_) => FirstEvent(s.table, s.pending);
  }

  /** The steps of a failure-free run that cost: a deletion, with something to give back, of less than
      a whole route, such as the clean-up after a refused addition; and the repetition, within the
      limit, of a source-prefixed route. */
  predicate Costly(s: State, step: Step) {
    step.Notify?
    && match step.e.kind
       case Append => false
       case Delete => !Whole(s, step.e) && s.num > 0
       case Replace => step.e.key in s.kernel && !Offloaded(step.e.key) && s.num != s.max
  }

  lemma SmoothPrice(s: State, step: Step)
    requires Agrees(s) && Excess(s) == 0 && Legal(s, step) && Smooth(step)
    ensures Price(s, step) == 0 <==> !Costly(s, step)
  {
    hide Hits, Drain, Evolve;
    match step
    case Notify(e, _) =>
      if e.key in s.kernel {
        assert |s.kernel| >= 1 by {
          assert e.key in s.kernel.Keys;
        }
      }
    case Work(_) => FirstEvent(s.table, s.pending);
  }

  predicate Plain(s: State, steps: seq<Step>)
    requires LegalRun(s, steps)
    decreases |steps|
  {
    steps != [] ==> !Costly(s, steps[0]) && Plain(Taken(s, steps[0]), steps[1..])
  }

  predicate AllSmooth(steps: seq<Step>) {
    forall i | 0 <= i < |steps| :: Smooth(steps[i])
  }

  /** For every interleaving of notifier and worker without failures: draining the queue yields the
      kernel's offloadable routes throughout, and the counter is the kernel's routes plus the pending
      hits in every state exactly when no step deletes less than a whole route with something to give
      back or repeats a source-prefixed route. */
  lemma {:induction false} BalancedExactly(s: State, steps: seq<Step>)
    requires Agrees(s) && Excess(s) == 0 && LegalRun(s, steps) && AllSmooth(steps)
    ensures var t := Run(s, steps);
      Agrees(t) && Drain(t.table, t.pending) == map k | k in t.kernel && k.source == None :: t.kernel[k]
    ensures AlwaysBalanced(s, steps) <==> Plain(s, steps)
    decreases |steps|
  {
    hide Hits, Drain, Taken, Price, Excess, Costly, Agrees;
    if steps != [] {
      assert Smooth(steps[0]);
      SmoothAgrees(s, steps[0]);
      StepPrice(s, steps[0]);
      SmoothPrice(s, steps[0]);
      var t := Taken(s, steps[0]);
      BalancedHere(t, steps[1..]);
      if Excess(t) == 0 {
        BalancedExactly(t, steps[1..]);
      } else {
        AgreesThroughout(t, steps[1..]);
      }
    }
    AgreesMeans(Run(s, steps));
  }

  lemma AgreesMeans(s: State)
    ensures Agrees(s) <==> Drain(s.table, s.pending) == map k | k in s.kernel && k.source == None :: s.kernel[k]
  {
    assert Offloadable(s.kernel) == map k | k in s.kernel && k.source == None :: s.kernel[k];
  }

  lemma {:induction false} AgreesThroughout(s: State, steps: seq<Step>)
    requires Agrees(s) && LegalRun(s, steps) && AllSmooth(steps)
    ensures Agrees(Run(s, steps))
    decreases |steps|
  {
    if steps != [] {
      assert Smooth(steps[0]);
      SmoothAgrees(s, steps[0]);
      AgreesThroughout(Taken(s, steps[0]), steps[1..]);
    }
  }

  /** The clean-up after a refused addition gives back a charge that was never taken: with the limit at
      one, a second route is then accepted beside the first. */
  lemma RefusedAdditionUndercharges(a: Key, b: Key, o: nat)
    requires a != b && Offloaded(a) && Offloaded(b)
    ensures var held := map[a := multiset{o}];
      var s := State(1, 1, held, [], held, false);
      var add, cleanup := Event(H.Replace, b, [o]), Event(H.Delete, b, [o]);
      var t := Notified(s, cleanup, Accepted).0;
      && Agrees(s) && Excess(s) == 0 && Notified(s, add, Accepted) == (s, ENOSPC)
      && Excess(t) == -1 && Notified(t, add, Accepted).1 == Ok && |Notified(t, add, Accepted).0.kernel| == 2
  {
    var held := map[a := multiset{o}];
    var s := State(1, 1, held, [], held, false);
    var add, cleanup := Event(H.Replace, b, [o]), Event(H.Delete, b, [o]);
    assert held.Keys == {a};
    NotifyPriced(s, cleanup, Accepted);
    assert KernelAfter(s, cleanup) == held;
    Sizes(held, b, Some(multiset([o])));
    assert Offloadable(held) == held;
  }

  // ---- the driver ----------------------------------------------------------------------------------

  class Fib6Counter {
    const max: nat
    var num: nat
    var table: Table
    var queue: seq<Event>
    var flushDue: bool
    ghost var kernel: Table

    constructor (max: nat)
      ensures View() == State(0, max, map[], [], map[], false) && Agrees(View()) && Excess(View()) == 0
    {
      this.max, num, table, queue, flushDue, kernel := max, 0, map[], [], false, map[];
    }

    ghost function View(): State
      reads this
    {
      State(num, max, table, queue, kernel, flushDue)
    }

    /** nsim_fib_account. */
    method Account(add: bool) returns (e: Errno)
      modifies this`num
      ensures add ==> e == (if old(num) == max then ENOSPC else Ok) && num == if e == Ok then old(num) + 1 else old(num)
      ensures !add ==> e == Ok && num == Refund(old(num))
    {
      if add {
        if num == max {
          return ENOSPC;
        }
        num := num + 1;
      } else if num > 0 {
        num := num - 1;
      }
      return Ok;
    }

    /** nsim_fib_event_schedule_work with nsim_fib6_prepare_event. */
    method NotifyEvent(e: Event, veto: Veto) returns (err: Errno)
      modifies this
      ensures (View(), err) == Notified(old(View()), e, veto)
    {
      ghost var after := KernelAfter(View(), e);
      err := Ok;
      if veto == NoEventMemory {
        err := ENOMEM;
      } else {
        match e.kind {
          case Replace => err := Account(true);
          case Append =>
          case Delete =>
            if veto == DeleteFault {
              err := EINVAL;
            } else {
              var _ := Account(false);
            }
        }
      }
      if err != Ok {
        if e.kind == H.Delete {
          kernel := after;
          flushDue := true;
        }
        return;
      }
      kernel := after;
      queue := queue + [e];
    }

    /** nsim_fib6_event on the oldest event. */
    method WorkOne(fault: Fault)
      requires queue != []
      modifies this`num, this`table, this`queue
      ensures View() == Worked(old(View()), fault)
    {
      var e := queue[0];
      queue := queue[1..];
      if e.key.source.Some? {
        return;
      }
      match e.kind {
        case Replace => Insert(e, fault);
        case Append =>
          if fault == Refused || fault == NoMemory || e.key !in table {
            assert e.key !in table ==> table - {e.key} == table;
            return;
          }
          table := table[e.key := table[e.key] + multiset(e.objs)];
        case Delete => Remove(e);
      }
    }

    /** nsim_fib6_rt_insert with nsim_fib6_rt_add and nsim_fib6_rt_replace. */
    method Insert(e: Event, fault: Fault)
      modifies this`num, this`table
      ensures table == if fault == NoFault then old(table)[e.key := multiset(e.objs)] else old(table)
      ensures num == if fault == HashFailure || (fault == NoFault && e.key in old(table)) then Refund(old(num))
        else old(num)
    {
      if fault == Refused || fault == NoMemory {
        return;
      }
      if e.key in table {
        var _ := Account(false);
        if fault == HashFailure {
          return;
        }
      } else if fault == HashFailure {
        var _ := Account(false);
        return;
      }
      table := table[e.key := multiset(e.objs)];
    }

    /** nsim_fib6_rt_remove: the named nexthops are counted against the route's. */
    method Remove(e: Event)
      modifies this`table
      ensures table == Put(old(table), e.key, Evolve(Get(old(table), e.key), e.(kind := H.Delete)))
    {
      if e.key !in table {
        assert table - {e.key} == table;
        return;
      }
      if |e.objs| != |table[e.key]| {
        table := table[e.key := table[e.key] - multiset(e.objs)];
        return;
      }
      table := table - {e.key};
    }

    /** nsim_fib_flush_work, after the event work. */
    method FlushWork()
      modifies this`num, this`table, this`flushDue
      ensures View() == Flushed(old(View()))
    {
      flushDue := false;
      while table.Keys != {}
        invariant !flushDue && |table| <= |old(table)|
        invariant num == if old(num) >= |old(table)| - |table| then old(num) - (|old(table)| - |table|) else 0
        decreases |table|
      {
        var k :| k in table;
        assert (table - {k}).Keys == table.Keys - {k};
        table := table - {k};
        var _ := Account(false);
      }
      assert table == map[];
    }
  }
}
