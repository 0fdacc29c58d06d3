/** Holds on kernel route objects (netdevsim/fib.c).  Installed entries and queued events each
    keep holds; the module shows that on every path, failing ones included, the holds the driver
    has taken are exactly those its entries and queued events account for. */
module FibHolds {
  import opened Prelude

  datatype Family = V4 | V6
  datatype Key = Key(addr: nat, prefixLen: nat, family: Family, table: nat)
  datatype Kind = Replace | Append | Delete

  /** A queued event: the objects it names, and whether the route has a source prefix. */
  datatype Event = Event(kind: Kind, key: Key, objs: seq<nat>, fromSource: bool)

  /** Which allocations and table operations succeed while an event is worked on.  nhs is how
      many nexthop records can be allocated. */
  datatype Luck = Luck(offload: bool, entry: bool, nhs: nat, hash: bool)

  // ---- counting holds -----------------------------------------------------------

  function Flat(ss: seq<seq<nat>>): multiset<nat> {
    if ss == [] then multiset{} else multiset(ss[0]) + Flat(ss[1..])
  }

  lemma {:induction false} FlatSplit(ss: seq<seq<nat>>, ts: seq<seq<nat>>)
    ensures Flat(ss + ts) == Flat(ss) + Flat(ts)
  {
    if ss == [] {
      assert ss + ts == ts;
    } else {
      assert (ss + ts)[1..] == ss[1..] + ts;
      FlatSplit(ss[1..], ts);
    }
  }

  lemma FlatOne(s: seq<nat>)
    ensures Flat([s]) == multiset(s)
  {
    assert [s][1..] == [];
  }

  lemma FlatUpdate(ss: seq<seq<nat>>, i: nat, s: seq<nat>)
    requires i < |ss|
    ensures multiset(ss[i]) <= Flat(ss)
    ensures Flat(ss[i := s]) == Flat(ss) - multiset(ss[i]) + multiset(s)
    ensures Flat(ss[..i] + ss[i + 1..]) == Flat(ss) - multiset(ss[i])
  {
    assert ss == ss[..i] + ([ss[i]] + ss[i + 1..]);
    assert ss[i := s] == ss[..i] + ([s] + ss[i + 1..]);
    FlatSplit(ss[..i], [ss[i]] + ss[i + 1..]);
    FlatSplit([ss[i]], ss[i + 1..]);
    FlatSplit(ss[..i], [s] + ss[i + 1..]);
    FlatSplit([s], ss[i + 1..]);
    FlatSplit(ss[..i], ss[i + 1..]);
    FlatOne(ss[i]);
    FlatOne(s);
  }

  /** Removing the first record of x; nothing when there is none. */
  function Without(s: seq<nat>, x: nat): seq<nat> {
    if s == [] then [] else if s[0] == x then s[1..] else [s[0]] + Without(s[1..], x)
  }

  /** Without for each of xs in turn. */
  function WithoutAll(s: seq<nat>, xs: seq<nat>): seq<nat>
    decreases |xs|
  {
    if xs == [] then s else WithoutAll(Without(s, xs[0]), xs[1..])
  }

  lemma {:induction false} WithoutCounts(s: seq<nat>, x: nat)
    ensures multiset(Without(s, x)) == multiset(s) - multiset{x}
  {
    if s != [] {
      assert s == [s[0]] + s[1..];
      if s[0] != x {
        WithoutCounts(s[1..], x);
      }
    }
  }

  lemma {:induction false} WithoutAllCounts(s: seq<nat>, xs: seq<nat>)
    ensures multiset(WithoutAll(s, xs)) == multiset(s) - multiset(xs)
    decreases |xs|
  {
    if xs != [] {
      assert xs == [xs[0]] + xs[1..];
      WithoutCounts(s, xs[0]);
      WithoutAllCounts(Without(s, xs[0]), xs[1..]);
    }
  }

  lemma {:induction false} WithoutAllSnoc(s: seq<nat>, xs: seq<nat>, x: nat)
    ensures WithoutAll(s, xs + [x]) == Without(WithoutAll(s, xs), x)
    decreases |xs|
  {
    if xs == [] {
      assert xs + [x] == [x] && [x][1..] == [];
    } else {
      assert (xs + [x])[1..] == xs[1..] + [x];
      WithoutAllSnoc(Without(s, xs[0]), xs[1..], x);
    }
  }

  lemma {:induction false} WithoutAt(s: seq<nat>, x: nat, i: nat)
    requires i < |s| && s[i] == x && x !in s[..i]
    ensures Without(s, x) == s[..i] + s[i + 1..]
  {
    if i > 0 {
      assert s[0] in s[..i];
      assert s[1..][..i - 1] == s[..i][1..];
      WithoutAt(s[1..], x, i - 1);
      assert [s[0]] + s[1..i] == s[..i];
    }
  }

  lemma {:induction false} WithoutMissing(s: seq<nat>, x: nat)
    requires x !in s
    ensures Without(s, x) == s
  {
    if s != [] {
      WithoutMissing(s[1..], x);
    }
  }

  function Reversed(s: seq<nat>): seq<nat> {
    if s == [] then [] else [s[|s| - 1]] + Reversed(s[..|s| - 1])
  }

  lemma {:induction false} ReversedCounts(s: seq<nat>)
    ensures multiset(Reversed(s)) == multiset(s)
  {
    if s != [] {
      ReversedCounts(s[..|s| - 1]);
      assert s == s[..|s| - 1] + [s[|s| - 1]];
    }
  }

  // ---- what an event does to the installed entries ----------------------------------

  datatype Entry = Entry(key: Key, held: seq<nat>)

  function HeldBy(es: seq<Entry>): seq<seq<nat>> {
    if es == [] then [] else [es[0].held] + HeldBy(es[1..])
  }

  function NamedBy(q: seq<Event>): seq<seq<nat>> {
    if q == [] then [] else [q[0].objs] + NamedBy(q[1..])
  }

  ghost predicate DistinctKeys(es: seq<Entry>) {
    forall i, j | 0 <= i < j < |es| :: es[i].key != es[j].key
  }

  function Find(es: seq<Entry>, k: Key): Option<nat> {
    if es == [] then None
    else if es[0].key == k then Some(0)
    else match Find(es[1..], k)
         case None => None
         case Some(i) => Some(i + 1)
  }

  lemma {:induction false} FindMeaning(es: seq<Entry>, k: Key)
    ensures match Find(es, k)
            case None => forall i | 0 <= i < |es| :: es[i].key != k
            case Some(i) => i < |es| && es[i].key == k && forall j | 0 <= j < i :: es[j].key != k
  {
    if es != [] && es[0].key != k {
      FindMeaning(es[1..], k);
    }
  }

  function Dropped(es: seq<Entry>, i: nat): seq<Entry>
    requires i < |es|
  {
    es[..i] + es[i + 1..]
  }

  /** The objects an event can install: all of them, or none when a record is missing. */
  predicate EnoughRecords(e: Event, luck: Luck) {
    e.key.family == V4 || |e.objs| <= luck.nhs
  }

  /** The entries after the worker has handled e. */
  function Worked(es: seq<Entry>, e: Event, luck: Luck): seq<Entry> {
    if e.key.family == V6 && e.fromSource then es else
    match e.kind
    case Replace =>
      if !luck.offload || !luck.entry || !EnoughRecords(e, luck) || !luck.hash then es
      else (match Find(es, e.key)
            case None => [Entry(e.key, e.objs)] + es
            case Some(i) => if i < |es| then [Entry(e.key, e.objs)] + Dropped(es, i) else es)
    case Append =>
      if e.key.family == V4 || !luck.offload then es
      else (match Find(es, e.key)
            case None => es
            case Some(i) =>
              if i >= |es| then es
              else if EnoughRecords(e, luck) then es[i := Entry(e.key, es[i].held + e.objs)]
              else es[i := Entry(e.key, WithoutAll(es[i].held + e.objs[..luck.nhs], Reversed(e.objs[..luck.nhs])))])
    case Delete =>
      (match Find(es, e.key)
       case None => es
       case Some(i) =>
         if i >= |es| then es
         else if e.key.family == V6 && |e.objs| != |es[i].held|
         then es[i := Entry(e.key, WithoutAll(es[i].held, e.objs))]
         else Dropped(es, i))
  }

  lemma WorkedDistinct(es: seq<Entry>, e: Event, luck: Luck)
    requires DistinctKeys(es)
    ensures DistinctKeys(Worked(es, e, luck))
  {
    FindMeaning(es, e.key);
  }

  /** What is installed under a key. */
  function Under(es: seq<Entry>, k: Key): Option<seq<nat>> {
    match Find(es, k)
    case None => None
    case Some(i) => if i < |es| then Some(es[i].held) else None
  }

  lemma UnderAt(es: seq<Entry>, i: nat)
    requires DistinctKeys(es) && i < |es|
    ensures Under(es, es[i].key) == Some(es[i].held)
  {
    FindMeaning(es, es[i].key);
  }

  lemma UnderCons(es: seq<Entry>, x: Entry, k: Key)
    ensures Under([x] + es, k) == if k == x.key then Some(x.held) else Under(es, k)
  {
    assert ([x] + es)[1..] == es;
    FindMeaning(es, k);
  }

  lemma UnderUpdated(es: seq<Entry>, i: nat, held: seq<nat>, k: Key)
    requires DistinctKeys(es) && i < |es|
    ensures Under(es[i := Entry(es[i].key, held)], k) == if k == es[i].key then Some(held) else Under(es, k)
  {
    var fs := es[i := Entry(es[i].key, held)];
    FindMeaning(es, k);
    FindMeaning(fs, k);
    var at := Find(es, k);
    if at.Some? {
      UnderAt(fs, at.value);
    }
  }

  lemma UnderDropped(es: seq<Entry>, i: nat, k: Key)
    requires DistinctKeys(es) && i < |es|
    ensures Under(Dropped(es, i), k) == if k == es[i].key then None else Under(es, k)
  {
    var fs := Dropped(es, i);
    FindMeaning(es, k);
    FindMeaning(fs, k);
    var at := Find(es, k);
    if at.Some? && k != es[i].key {
      var j := if at.value < i then at.value else at.value - 1;
      assert fs[j] == es[at.value];
      UnderAt(fs, j);
    }
  }

  /** The event is a replacement or an append that meets a failure; a deletion meets none. */
  predicate Fails(e: Event, luck: Luck) {
    && !Ignored(e)
    && ((e.kind == Replace && !(luck.offload && luck.entry && luck.hash && EnoughRecords(e, luck)))
        || (e.kind == Append && !(luck.offload && EnoughRecords(e, luck))))
  }

  /** Routes with a source prefix and appended IPv4 routes are not offloaded. */
  predicate Ignored(e: Event) {
    if e.key.family == V6 then e.fromSource else e.kind == Append
  }

  /** Whatever is not a failure: an ignored event changes nothing; a replacement, an append or a
      whole deletion leaves exactly the named objects, the old ones followed by the named ones, or
      nothing under its key; and an event never disturbs another key. */
  lemma WorkedMeaning(es: seq<Entry>, e: Event, luck: Luck, k: Key)
    requires DistinctKeys(es) && !Fails(e, luck)
    ensures Under(Worked(es, e, luck), k) ==
      if k != e.key || Ignored(e) then Under(es, k)
      else match e.kind
        case Replace => Some(e.objs)
        case Append => if Under(es, k).Some? then Some(Under(es, k).value + e.objs) else None
        case Delete =>
          if Under(es, k).Some? && k.family == V6 && |e.objs| != |Under(es, k).value|
          then Some(WithoutAll(Under(es, k).value, e.objs)) else None
  {
    FindMeaning(es, e.key);
    var at := Find(es, e.key);
    if at.Some? {
      UnderAt(es, at.value);
      UnderDropped(es, at.value, k);
      UnderUpdated(es, at.value, es[at.value].held + e.objs, k);
      UnderUpdated(es, at.value, WithoutAll(es[at.value].held, e.objs), k);
      UnderCons(Dropped(es, at.value), Entry(e.key, e.objs), k);
    } else {
      UnderCons(es, Entry(e.key, e.objs), k);
    }
  }

  /** When a replacement is installed, without the driver's own words: IPv4 routes always, IPv6 routes
      without a source prefix, and only if every step goes well; */
  lemma InstalledExactly(es: seq<Entry>, key: Key, objs: seq<nat>, fromSource: bool, luck: Luck)
    requires DistinctKeys(es)
    ensures var r := Worked(es, Event(Replace, key, objs, fromSource), luck);
      if luck.offload && luck.entry && luck.hash && (key.family == V6 ==> !fromSource && |objs| <= luck.nhs)
      then Under(r, key) == Some(objs)
      else r == es
  {
    var e := Event(Replace, key, objs, fromSource);
    if luck.offload && luck.entry && luck.hash && (key.family == V6 ==> !fromSource && |objs| <= luck.nhs) {
      hide Worked, Under;
      WorkedMeaning(es, e, luck, key);
    }
  }

  /** when an append takes effect: on a known IPv6 route without a source prefix; */
  lemma ExtendedExactly(es: seq<Entry>, key: Key, objs: seq<nat>, fromSource: bool, luck: Luck)
    requires DistinctKeys(es)
    ensures var r := Worked(es, Event(Append, key, objs, fromSource), luck);
      if luck.offload && key.family == V6 && !fromSource && |objs| <= luck.nhs && Under(es, key).Some?
      then Under(r, key) == Some(Under(es, key).value + objs)
      else ObjectsUnder(r, key) == ObjectsUnder(es, key)
  {
    hide Worked, Under;
    var e := Event(Append, key, objs, fromSource);
    if Fails(e, luck) {
      FailureKeepsObjects(es, e, luck, key);
    } else {
      WorkedMeaning(es, e, luck, key);
    }
  }

  /** and what a deletion takes away. */
  lemma DeletedExactly(es: seq<Entry>, key: Key, objs: seq<nat>, fromSource: bool, luck: Luck)
    requires DistinctKeys(es)
    ensures var r := Worked(es, Event(Delete, key, objs, fromSource), luck);
      Under(r, key) ==
        if key.family == V6 && fromSource then Under(es, key)
        else if key.family == V6 && Under(es, key).Some? && |objs| != |Under(es, key).value|
        then Some(WithoutAll(Under(es, key).value, objs))
        else None
  {
    hide Worked, Under;
    WorkedMeaning(es, Event(Delete, key, objs, fromSource), luck, key);
  }

  /** A failed append gives back what it took: the same objects stay held under the key. */
  lemma FailedAppendKeeps(held: seq<nat>, objs: seq<nat>, n: nat)
    requires n <= |objs|
    ensures multiset(WithoutAll(held + objs[..n], Reversed(objs[..n]))) == multiset(held)
  {
    WithoutAllCounts(held + objs[..n], Reversed(objs[..n]));
    ReversedCounts(objs[..n]);
  }

  /** The objects held under a key, order aside. */
  function ObjectsUnder(es: seq<Entry>, k: Key): Option<multiset<nat>> {
    match Under(es, k)
    case None => None
    case Some(h) => Some(multiset(h))
  }

  /** A replacement or append that fails, at whatever point, leaves the objects held under every
      key as they were. */
  lemma FailureKeepsObjects(es: seq<Entry>, e: Event, luck: Luck, k: Key)
    requires DistinctKeys(es) && Fails(e, luck)
    ensures ObjectsUnder(Worked(es, e, luck), k) == ObjectsUnder(es, k)
  {
    FindMeaning(es, e.key);
    var at := Find(es, e.key);
    if at.Some? && e.kind == Append && e.key.family == V6 && luck.offload && !e.fromSource {
      UnderAt(es, at.value);
      FailedAppendKeeps(es[at.value].held, e.objs, luck.nhs);
      UnderUpdated(es, at.value, WithoutAll(es[at.value].held + e.objs[..luck.nhs], Reversed(e.objs[..luck.nhs])), k);
    }
  }

  // ---- holds of entries and queue ------------------------------------------------------

  /** The holds that entries and queued events stand for. */
  function Accounted(es: seq<Entry>, q: seq<Event>): multiset<nat> {
    Flat(HeldBy(es)) + Flat(NamedBy(q))
  }

  lemma {:induction false} HeldByAt(es: seq<Entry>)
    ensures |HeldBy(es)| == |es| && forall i | 0 <= i < |es| :: HeldBy(es)[i] == es[i].held
  {
    if es != [] {
      HeldByAt(es[1..]);
    }
  }

  lemma HeldCons(es: seq<Entry>, x: Entry)
    ensures Flat(HeldBy([x] + es)) == multiset(x.held) + Flat(HeldBy(es))
  {
    assert ([x] + es)[1..] == es;
    assert HeldBy([x] + es)[1..] == HeldBy(es);
  }

  lemma HeldChanged(es: seq<Entry>, i: nat, held: seq<nat>)
    requires i < |es|
    ensures multiset(es[i].held) <= Flat(HeldBy(es))
    ensures Flat(HeldBy(Dropped(es, i))) == Flat(HeldBy(es)) - multiset(es[i].held)
    ensures Flat(HeldBy(es[i := Entry(es[i].key, held)])) == Flat(HeldBy(es)) - multiset(es[i].held) + multiset(held)
  {
    HeldByAt(es);
    HeldByAt(Dropped(es, i));
    HeldByAt(es[i := Entry(es[i].key, held)]);
    var hs := HeldBy(es);
    assert HeldBy(Dropped(es, i)) == hs[..i] + hs[i + 1..];
    assert HeldBy(es[i := Entry(es[i].key, held)]) == hs[i := held];
    FlatUpdate(hs, i, held);
  }

  lemma {:induction false} NamedSnoc(q: seq<Event>, e: Event)
    ensures Flat(NamedBy(q + [e])) == Flat(NamedBy(q)) + multiset(e.objs)
  {
    if q == [] {
      assert q + [e] == [e] && [e][1..] == [];
      FlatOne(e.objs);
      assert NamedBy([e]) == [e.objs];
    } else {
      assert (q + [e])[1..] == q[1..] + [e];
      NamedSnoc(q[1..], e);
      assert NamedBy(q + [e])[1..] == NamedBy(q[1..] + [e]);
      assert NamedBy(q)[1..] == NamedBy(q[1..]);
    }
  }

  lemma NamedHead(q: seq<Event>)
    requires q != []
    ensures Flat(NamedBy(q)) == multiset(q[0].objs) + Flat(NamedBy(q[1..]))
  {
    assert NamedBy(q)[1..] == NamedBy(q[1..]);
  }

  // ---- keys -----------------------------------------------------------------------------

  /** A creation that runs out of records keeps none. */
  lemma NothingKept(objs: seq<nat>, n: nat)
    requires n <= |objs|
    ensures WithoutAll([] + objs[..n], Reversed(objs[..n])) == []
  {
    FailedAppendKeeps([], objs, n);
    assert |multiset(WithoutAll([] + objs[..n], Reversed(objs[..n])))| == 0;
  }

  // ---- the driver --------------------------------------------------------------------------

  class FibRoute {
    const key: Key
    var held: seq<nat>
    var nhs: nat

    constructor (key: Key)
      ensures this.key == key && held == [] && nhs == 0
    {
      this.key, held, nhs := key, [], 0;
    }

    /** The entry is what x says, and its count is that of its records. */
    ghost predicate Is(x: Entry)
      reads this
    {
      key == x.key && held == x.held && nhs == |x.held|
    }
  }

  ghost predicate IndexedBy(ht: map<Key, FibRoute>, rs: seq<FibRoute>) {
    && (forall k | k in ht :: ht[k] in rs && ht[k].key == k)
    && (forall r | r in rs :: r.key in ht && ht[r.key] == r)
  }

  class FibRoutes {
    /** fib_rt_list, fib_rt_ht, fib_event_queue. */
    var list: seq<FibRoute>
    var ht: map<Key, FibRoute>
    var queue: seq<Event>
    /** The holds the driver has taken and not released. */
    var holds: multiset<nat>
    ghost var entries: seq<Entry>

    constructor ()
      ensures AtRest() && entries == [] && queue == [] && holds == multiset{}
    {
      list, ht, queue, holds, entries := [], map[], [], multiset{}, [];
    }

    /** entries says what the listed routes hold. */
    ghost predicate Tied()
      reads this`list, this`entries, list
    {
      && |list| == |entries|
      && (forall i | 0 <= i < |list| :: list[i].Is(entries[i]))
      && (forall i, j | 0 <= i < j < |list| :: list[i] != list[j])
    }

    /** The hash table and rs hold the same routes. */
    ghost predicate Indexed(rs: seq<FibRoute>)
      reads this`ht
    {
      IndexedBy(ht, rs)
    }

    ghost predicate Balanced()
      reads this`holds, this`entries, this`queue
    {
      holds == Accounted(entries, queue)
    }

    /** Between operations: list and hash table hold the same routes, and the holds taken are
        those of the entries and of the queued events. */
    ghost predicate AtRest()
      reads this, list
    {
      Tied() && Balanced() && Indexed(list)
    }

    /** fib_info_hold, fib6_info_hold. */
    method Hold(o: nat)
      modifies this`holds
      ensures holds == old(holds) + multiset{o}
    {
      holds := holds + multiset{o};
    }

    /** fib_info_put, fib6_info_release: only what is held can be released. */
    method Release(o: nat)
      requires o in holds
      modifies this`holds
      ensures holds == old(holds) - multiset{o}
    {
      holds := holds - multiset{o};
    }

    /** nsim_fib6_rt_nh_add once the record is allocated; also the hold of nsim_fib4_rt_create.
        base is what is held on behalf of everything but r. */
    method NhAdd(r: FibRoute, o: nat, ghost base: multiset<nat>)
      requires holds == base + multiset(r.held)
      modifies r, this`holds
      ensures r.held == old(r.held) + [o] && r.nhs == old(r.nhs) + 1
      ensures holds == base + multiset(r.held)
    {
      Hold(o);
      r.held := r.held + [o];
      r.nhs := r.nhs + 1;
    }

    /** nsim_fib6_rt_nh_del. */
    method NhDel(r: FibRoute, o: nat, ghost base: multiset<nat>)
      requires holds == base + multiset(r.held) && r.nhs == |r.held|
      modifies r, this`holds
      ensures r.held == Without(old(r.held), o) && r.nhs == |r.held|
      ensures holds == base + multiset(r.held)
    {
      for i := 0 to |r.held|
        invariant o !in r.held[..i]
      {
        if r.held[i] == o {
          WithoutAt(r.held, o, i);
          WithoutCounts(r.held, o);
          assert r.held[i] in multiset(r.held);
          r.nhs := r.nhs - 1;
          r.held := r.held[..i] + r.held[i + 1..];
          Release(o);
          return;
        }
      }
      WithoutMissing(r.held, o);
    }

    /** The nexthop loop of nsim_fib6_rt_create and nsim_fib6_rt_append with its rollback. */
    method NhAddAll(r: FibRoute, objs: seq<nat>, records: nat, ghost base: multiset<nat>) returns (ok: bool)
      requires holds == base + multiset(r.held) && r.nhs == |r.held|
      modifies r, this`holds
      ensures ok <==> |objs| <= records
      ensures ok ==> r.held == old(r.held) + objs
      ensures !ok ==> r.held == WithoutAll(old(r.held) + objs[..records], Reversed(objs[..records]))
      ensures holds == base + multiset(r.held) && r.nhs == |r.held|
    {
      var i := 0;
      while i < |objs|
        invariant i <= |objs| && i <= records
        invariant r.held == old(r.held) + objs[..i] && r.nhs == |r.held|
        invariant holds == base + multiset(r.held)
      {
        if i == records {
          NhDelAll(r, objs[..i], base);
          return false;
        }
        assert objs[..i + 1] == objs[..i] + [objs[i]];
        NhAdd(r, objs[i], base);
        i := i + 1;
      }
      assert objs[..i] == objs;
      return true;
    }

    /** The rollback loop: the objects added, last first. */
    method NhDelAll(r: FibRoute, objs: seq<nat>, ghost base: multiset<nat>)
      requires holds == base + multiset(r.held) && r.nhs == |r.held|
      modifies r, this`holds
      ensures r.held == WithoutAll(old(r.held), Reversed(objs))
      ensures holds == base + multiset(r.held) && r.nhs == |r.held|
    {
      var i := |objs|;
      assert objs[..i] == objs;
      while i > 0
        invariant 0 <= i <= |objs| && r.nhs == |r.held|
        invariant WithoutAll(r.held, Reversed(objs[..i])) == WithoutAll(old(r.held), Reversed(objs))
        invariant holds == base + multiset(r.held)
      {
        i := i - 1;
        assert objs[..i + 1][..i] == objs[..i];
        assert Reversed(objs[..i + 1]) == [objs[i]] + Reversed(objs[..i]);
        NhDel(r, objs[i], base);
      }
      assert objs[..0] == [];
    }

    /** The loop of nsim_fib6_rt_remove over the named objects, first one first. */
    method NhDelNamed(r: FibRoute, objs: seq<nat>, ghost base: multiset<nat>)
      requires holds == base + multiset(r.held) && r.nhs == |r.held|
      modifies r, this`holds
      ensures r.held == WithoutAll(old(r.held), objs)
      ensures holds == base + multiset(r.held) && r.nhs == |r.held|
    {
      for i := 0 to |objs|
        invariant r.nhs == |r.held| && holds == base + multiset(r.held)
        invariant r.held == WithoutAll(old(r.held), objs[..i])
      {
        assert objs[..i + 1] == objs[..i] + [objs[i]];
        WithoutAllSnoc(old(r.held), objs[..i], objs[i]);
        NhDel(r, objs[i], base);
      }
      assert objs[..|objs|] == objs;
    }

    /** nsim_fib6_rt_destroy, nsim_fib4_rt_destroy: what the entry holds is released. */
    method NhDelEvery(r: FibRoute, ghost base: multiset<nat>)
      requires holds == base + multiset(r.held) && r.nhs == |r.held|
      modifies r, this`holds
      ensures r.held == [] && r.nhs == 0 && holds == base
    {
      while r.held != []
        invariant holds == base + multiset(r.held) && r.nhs == |r.held|
        decreases |r.held|
      {
        NhDel(r, r.held[0], base);
      }
    }

    /** list_del. */
    method ListDel(x: FibRoute, ghost at: nat)
      requires Tied() && at < |list| && list[at] == x
      modifies this`list, this`entries
      ensures Tied()
      ensures list == old(list)[..at] + old(list)[at + 1..] && entries == Dropped(old(entries), at)
    {
      var i := 0;
      while list[i] != x
        modifies {}
        invariant i <= at
        decreases at - i
      {
        i := i + 1;
      }
      ghost var l, es := list, entries;
      list := list[..i] + list[i + 1..];
      entries := Dropped(entries, i);
      forall j | 0 <= j < |list| ensures list[j].Is(entries[j]) {
        assert l[if j < i then j else j + 1].Is(es[if j < i then j else j + 1]);
      }
    }

    /** nsim_fib4_rt_destroy, nsim_fib6_rt_destroy. */
    method Destroy(r: FibRoute, ghost at: nat)
      requires Tied() && Balanced() && at < |list| && list[at] == r
      modifies this`list, this`entries, this`holds, r
      ensures Tied() && Balanced()
      ensures list == old(list)[..at] + old(list)[at + 1..] && entries == Dropped(old(entries), at)
    {
      hide HeldBy, NamedBy, Flat, Find;
      ghost var es := entries;
      HeldChanged(es, at, []);
      NhDelEvery(r, holds - multiset(r.held));
      entries := es[at := Entry(r.key, [])];
      assert Dropped(entries, at) == Dropped(es, at);
      ListDel(r, at);
    }

    lemma Keys(k: Key)
      requires Tied() && Indexed(list)
      ensures DistinctKeys(entries) && |list| == |entries|
      ensures forall i, j | 0 <= i < j < |list| :: list[i] != list[j]
      ensures match Find(entries, k)
              case None => k !in ht
              case Some(i) => i < |list| && k in ht && ht[k] == list[i] && entries[i].key == k
    {
      FindMeaning(entries, k);
      assert forall i | 0 <= i < |list| :: list[i] in list && list[i].Is(entries[i]);
      if k in ht {
        var i :| 0 <= i < |list| && list[i] == ht[k];
        assert entries[i].key == k;
      }
    }

    /** nsim_fib4_rt_create, nsim_fib6_rt_create: a new route stands in front of the list,
        holding its objects, or nothing has changed. */
    method Create(e: Event, luck: Luck) returns (r: FibRoute, ok: bool)
      requires Tied() && Balanced() && luck.entry
      modifies this`list, this`holds, this`entries
      ensures Tied() && Balanced()
      ensures ok == EnoughRecords(e, luck) && fresh(r) && r.key == e.key
      ensures ok ==> list == [r] + old(list) && entries == [Entry(e.key, e.objs)] + old(entries)
      ensures !ok ==> list == old(list) && entries == old(entries)
    {
      hide HeldBy, NamedBy, Flat, Find, WithoutAll, Reversed, Dropped;
      ghost var es, l, base := entries, list, holds;
      r := new FibRoute(e.key);
      list := [r] + list;
      ok := NhAddAll(r, e.objs, if e.key.family == V4 then |e.objs| else luck.nhs, base);
      assert [] + e.objs == e.objs;
      HeldCons(es, Entry(e.key, r.held));
      entries := [Entry(e.key, r.held)] + entries;
      FrontTied(r, l, es);
      if !ok {
        NothingKept(e.objs, luck.nhs);
        ReplacedAt(r, l, Entry(e.key, r.held), es, 0);
        ListDel(r, 0);
        assert holds == base;
      }
    }

    lemma FrontTied(r: FibRoute, l: seq<FibRoute>, es: seq<Entry>)
      requires list == [r] + l && entries == [Entry(r.key, r.held)] + es && r.nhs == |r.held|
      requires |l| == |es| && r !in l
      requires forall i | 0 <= i < |l| :: l[i].Is(es[i])
      requires forall i, j | 0 <= i < j < |l| :: l[i] != l[j]
      ensures Tied()
    {
      forall i | 0 <= i < |list| ensures list[i].Is(entries[i]) {
        if i > 0 { assert l[i - 1].Is(es[i - 1]); }
      }
    }

    /** nsim_fib4_rt_insert, nsim_fib6_rt_insert. */
    method Insert(e: Event, luck: Luck)
      requires AtRest() && e.kind == Replace && (e.key.family == V6 ==> !e.fromSource)
      modifies this`list, this`ht, this`holds, this`entries, list
      ensures AtRest() && entries == Worked(old(entries), e, luck)
    {
      hide HeldBy, NamedBy, Flat, Accounted, Find, Tied;
      if !luck.offload || !luck.entry {
        return;
      }
      ghost var es, l := entries, list;
      Keys(e.key);
      var r, ok := Create(e, luck);
      if !ok {
        return;
      }
      if luck.hash {
        if e.key !in ht {
          NewIndexed(r, l);
          ht := ht[e.key := r];
        } else {
          ghost var i := Find(es, e.key).value;
          var prev := ht[e.key];
          Reindexed(r, prev, l, i);
          ht := ht[e.key := r];
          Destroy(prev, i + 1);
          ReplacedAt(r, l, Entry(e.key, e.objs), es, i);
        }
      } else {
        Destroy(r, 0);
        ReplacedAt(r, l, Entry(e.key, e.objs), es, 0);
      }
    }

    lemma ReplacedAt(r: FibRoute, l: seq<FibRoute>, x: Entry, es: seq<Entry>, i: nat)
      requires i <= |es| && |es| == |l|
      ensures Dropped([x] + es, 0) == es && ([r] + l)[..0] + ([r] + l)[1..] == l
      ensures i < |es| ==> Dropped([x] + es, i + 1) == [x] + Dropped(es, i)
      ensures i < |es| ==> ([r] + l)[..i + 1] + ([r] + l)[i + 2..] == [r] + (l[..i] + l[i + 1..])
    {
    }

    lemma NewIndexed(r: FibRoute, l: seq<FibRoute>)
      requires Indexed(l) && r.key !in ht
      ensures IndexedBy(ht[r.key := r], [r] + l)
    {
    }

    /** One route taken out of the list and another put in its slot of the table. */
    lemma Reindexed(r: FibRoute, prev: FibRoute, l: seq<FibRoute>, i: nat)
      requires IndexedBy(ht, l) && i < |l| && l[i] == prev && r !in l && r.key == prev.key
      requires forall j, k | 0 <= j < k < |l| :: l[j] != l[k]
      ensures IndexedBy(ht[r.key := r], [r] + (l[..i] + l[i + 1..]))
    {
      var ht' := ht[r.key := r];
      var rest := l[..i] + l[i + 1..];
      assert prev in l;
      forall k | k in ht' ensures ht'[k] in [r] + rest && ht'[k].key == k {
        if k != r.key {
          var j :| 0 <= j < |l| && l[j] == ht[k];
          assert j != i;
          assert rest[if j < i then j else j - 1] == l[j];
        }
      }
      forall q | q in [r] + rest ensures q.key in ht' && ht'[q.key] == q {
        if q != r {
          var j :| 0 <= j < |rest| && rest[j] == q;
          assert l[if j < i then j else j + 1] == q;
          assert q in l && q != prev;
        }
      }
    }

    /** One route taken out of the list and of the table. */
    lemma Unindexed(prev: FibRoute, l: seq<FibRoute>, i: nat)
      requires IndexedBy(ht, l) && i < |l| && l[i] == prev
      requires forall j, k | 0 <= j < k < |l| :: l[j] != l[k]
      ensures IndexedBy(ht - {prev.key}, l[..i] + l[i + 1..])
    {
      var ht' := ht - {prev.key};
      var rest := l[..i] + l[i + 1..];
      assert prev in l;
      forall k | k in ht' ensures ht'[k] in rest && ht'[k].key == k {
        var j :| 0 <= j < |l| && l[j] == ht[k];
        assert j != i;
        assert rest[if j < i then j else j - 1] == l[j];
      }
      forall q | q in rest ensures q.key in ht' && ht'[q.key] == q {
        var j :| 0 <= j < |rest| && rest[j] == q;
        assert l[if j < i then j else j + 1] == q;
        assert q in l && q != prev;
      }
    }

    /** An entry whose records changed is tied and counted again. */
    lemma Retied(es: seq<Entry>, at: nat)
      requires at < |es| && |list| == |es| && list[at].nhs == |list[at].held| && list[at].key == es[at].key
      requires entries == es[at := Entry(es[at].key, list[at].held)]
      requires forall i | 0 <= i < |list| && i != at :: list[i].Is(es[i])
      requires forall i, j | 0 <= i < j < |list| :: list[i] != list[j]
      requires holds == Accounted(es, queue) - multiset(es[at].held) + multiset(list[at].held)
      ensures Tied() && Balanced()
    {
      hide HeldBy, NamedBy, Flat;
      HeldChanged(es, at, list[at].held);
    }

    lemma HeldWithin(at: nat)
      requires at < |entries| && Balanced()
      ensures multiset(entries[at].held) <= holds
    {
      HeldChanged(entries, at, []);
    }

    /** nsim_fib6_rt_append. */
    method AppendTo(e: Event, luck: Luck)
      requires AtRest() && e.kind == Append && e.key.family == V6 && !e.fromSource
      modifies this`holds, this`entries, list
      ensures AtRest() && entries == Worked(old(entries), e, luck)
    {
      hide HeldBy, NamedBy, Flat, Accounted, Find, Indexed;
      if !luck.offload {
        return;
      }
      Keys(e.key);
      if e.key !in ht {
        return;
      }
      ghost var es, i := entries, Find(entries, e.key).value;
      var r := ht[e.key];
      HeldWithin(i);
      var ok := NhAddAll(r, e.objs, luck.nhs, holds - multiset(r.held));
      entries := es[i := Entry(e.key, r.held)];
      Retied(es, i);
    }

    /** nsim_fib4_rt_remove, nsim_fib6_rt_remove. */
    method Remove(e: Event)
      requires AtRest() && e.kind == Delete && (e.key.family == V6 ==> !e.fromSource)
      modifies this`list, this`ht, this`holds, this`entries, list
      ensures AtRest() && forall luck :: entries == Worked(old(entries), e, luck)
    {
      hide HeldBy, NamedBy, Flat, Accounted, Find, Indexed;
      Keys(e.key);
      if e.key !in ht {
        return;
      }
      ghost var es, i := entries, Find(entries, e.key).value;
      var r := ht[e.key];
      if e.key.family == V6 && |e.objs| != r.nhs {
        HeldWithin(i);
        NhDelNamed(r, e.objs, holds - multiset(r.held));
        entries := es[i := Entry(e.key, r.held)];
        Retied(es, i);
        return;
      }
      IndexedUnfold();
      Unindexed(r, list, i);
      ht := ht - {e.key};
      Destroy(r, i);
      IndexedFold();
    }

    lemma IndexedUnfold()
      requires Indexed(list)
      ensures IndexedBy(ht, list)
    {
    }

    lemma IndexedFold()
      requires IndexedBy(ht, list)
      ensures Indexed(list)
    {
    }

    /** nsim_fib4_event, nsim_fib6_event. */
    method Handle(e: Event, luck: Luck)
      requires AtRest()
      modifies this`list, this`ht, this`holds, this`entries, list
      ensures AtRest() && entries == Worked(old(entries), e, luck)
    {
      hide *;
      Idle(entries, e, luck);
      if e.key.family == V4 || !e.fromSource {
        match e.kind {
          case Replace => Insert(e, luck);
          case Append =>
            if e.key.family == V6 {
              AppendTo(e, luck);
            }
          case Delete => Remove(e);
        }
      }
    }

    /** nsim_fib_event: the event does its work, then its own holds are released. */
    method Work(luck: Luck)
      requires AtRest() && queue != []
      modifies this`list, this`ht, this`holds, this`entries, this`queue, list
      ensures AtRest()
      ensures queue == old(queue)[1..] && entries == Worked(old(entries), old(queue)[0], luck)
    {
      hide HeldBy, NamedBy, Flat, Find, Indexed, Tied, Worked;
      var e := queue[0];
      Handle(e, luck);
      NamedHead(queue);
      ReleaseAll(e.objs, Accounted(entries, queue[1..]));
      queue := queue[1..];
    }

    lemma Idle(es: seq<Entry>, e: Event, luck: Luck)
      ensures e.key.family == V6 && e.fromSource ==> Worked(es, e, luck) == es
      ensures e.key.family == V4 && e.kind == Append ==> Worked(es, e, luck) == es
    {
    }

    /** nsim_fib6_event_fini; for IPv4 the single fib_info_put of nsim_fib_event. */
    method ReleaseAll(objs: seq<nat>, ghost base: multiset<nat>)
      requires holds == base + multiset(objs)
      modifies this`holds
      ensures holds == base
    {
      assert objs[0..] == objs;
      for i := 0 to |objs|
        invariant holds == base + multiset(objs[i..])
      {
        assert objs[i..] == [objs[i]] + objs[i + 1..];
        Release(objs[i]);
      }
    }

    /** nsim_fib6_event_init; for IPv4 the fib_info_hold of nsim_fib4_prepare_event. */
    method HoldAll(objs: seq<nat>)
      modifies this`holds
      ensures holds == old(holds) + multiset(objs)
    {
      for i := 0 to |objs|
        invariant holds == old(holds) + multiset(objs[..i])
      {
        assert objs[..i + 1] == objs[..i] + [objs[i]];
        Hold(objs[i]);
      }
      assert objs[..|objs|] == objs;
    }

    /** nsim_fib_event_schedule_work: alloc says whether the event gets its memory, charged
        whether the accounting accepts it.  A rejected event keeps no hold. */
    method Enqueue(e: Event, alloc: bool, charged: bool) returns (err: Errno)
      requires AtRest() && (e.key.family == V4 ==> |e.objs| == 1)
      modifies this`holds, this`queue
      ensures AtRest()
      ensures err == Ok <==> alloc && charged
      ensures queue == if err == Ok then old(queue) + [e] else old(queue)
      ensures err != Ok ==> holds == old(holds)
    {
      hide HeldBy, NamedBy, Flat, Find, Indexed, Tied;
      if !alloc {
        return ENOMEM;
      }
      if e.key.family == V4 && !charged {
        return ENOSPC;
      }
      HoldAll(e.objs);
      if !charged {
        ReleaseAll(e.objs, old(holds));
        return ENOSPC;
      }
      NamedSnoc(queue, e);
      queue := queue + [e];
      return Ok;
    }

    /** nsim_fib_flush_work once the queue has been worked off: every entry goes, and the only
        holds left are those of queued events. */
    method Flush()
      requires AtRest()
      modifies this`list, this`ht, this`holds, this`entries, list
      ensures AtRest() && list == [] && ht == map[] && holds == Flat(NamedBy(queue))
    {
      hide HeldBy, NamedBy, Flat, Find, Indexed;
      while list != []
        invariant AtRest() && forall r | r in list :: r in old(list)
        decreases |list|
      {
        var r := list[0];
        Keys(r.key);
        IndexedUnfold();
        assert r in list;
        Unindexed(r, list, 0);
        ht := ht - {r.key};
        Destroy(r, 0);
        IndexedFold();
      }
      NothingHeld();
    }

    lemma NothingHeld()
      requires AtRest() && list == []
      ensures ht == map[] && holds == Flat(NamedBy(queue))
    {
      assert forall k | k in ht :: ht[k] in list;
    }
  }
}
