/** What a reader of external timestamps may rely on (ptp/ptp_clock.c, ptp_chardev.c,
    ptp_sysfs.c): one drop-oldest FIFO per reader, told apart by channel masks. */
module EventTrace {
  import opened Prelude

  const MAX_TIMESTAMPS: nat := 128
  const CAPACITY: nat := MAX_TIMESTAMPS - 1
  const BUF_TIMESTAMPS: nat := 30
  const MAX_CHANNELS: nat := 2048
  const NS: nat := 1_000_000_000

  datatype Stamp = Stamp(index: nat, sec: nat, nsec: nat)

  function Split(index: nat, ts: nat): Stamp {
    Stamp(index, ts / NS, ts % NS)
  }

  lemma SplitExact(index: nat, ts: nat, other: Stamp)
    ensures var s := Split(index, ts);
      s.index == index && s.sec * 1_000_000_000 + s.nsec == ts && s.nsec < 1_000_000_000
    ensures other.index == index && other.sec * 1_000_000_000 + other.nsec == ts && other.nsec < 1_000_000_000 ==>
      other == Split(index, ts)
  {
    if other.sec * NS + other.nsec == ts && other.nsec < NS {
      assert ts / NS == other.sec;
    }
  }

  // ---- one queue --------------------------------------------------------------------------

  datatype QOp = Put(x: Stamp) | Take(n: nat)

  function Push(items: seq<Stamp>, x: Stamp): seq<Stamp> {
    if |items| == CAPACITY then items[1..] + [x] else items + [x]
  }

  function Taken(items: seq<Stamp>, n: nat): seq<Stamp> {
    items[..if n <= |items| then n else |items|]
  }

  function Left(items: seq<Stamp>, n: nat): seq<Stamp> {
    items[if n <= |items| then n else |items|..]
  }

  function Items(ops: seq<QOp>): seq<Stamp>
    decreases |ops|
  {
    if ops == [] then []
    else
      var was := Items(ops[..|ops| - 1]);
      match ops[|ops| - 1]
      case Put(x) => Push(was, x)
      case Take(n) => Left(was, n)
  }

  /** All events accepted so far; event number i is the i-th of them. */
  function Accepted(ops: seq<QOp>): seq<Stamp>
    decreases |ops|
  {
    if ops == [] then []
    else
      match ops[|ops| - 1]
      case Put(x) => Accepted(ops[..|ops| - 1]) + [x]
      case Take(_) => Accepted(ops[..|ops| - 1])
  }

  /** What readers obtained so far. */
  function Delivered(ops: seq<QOp>): seq<Stamp>
    decreases |ops|
  {
    if ops == [] then []
    else
      match ops[|ops| - 1]
      case Put(_) => Delivered(ops[..|ops| - 1])
      case Take(n) => Delivered(ops[..|ops| - 1]) + Taken(Items(ops[..|ops| - 1]), n)
  }

  /** The number of the oldest event still queued. */
  function Oldest(ops: seq<QOp>): int {
    |Accepted(ops)| - |Items(ops)|
  }

  function Range(from: int, n: nat): seq<int> {
    seq(n, i => from + i)
  }

  /** The numbers of the delivered events. */
  function Numbers(ops: seq<QOp>): seq<int>
    decreases |ops|
  {
    if ops == [] then []
    else
      var before := ops[..|ops| - 1];
      match ops[|ops| - 1]
      case Put(_) => Numbers(before)
      case Take(n) => Numbers(before) + Range(Oldest(before), |Taken(Items(before), n)|)
  }

  /** At step k event i is the oldest of a full queue and gives way to event i + CAPACITY. */
  predicate DroppedAt(ops: seq<QOp>, i: nat, k: nat) {
    k < |ops| && ops[k].Put? && Oldest(ops[..k]) == i && |Accepted(ops[..k])| == i + CAPACITY
  }

  predicate Dropped(ops: seq<QOp>, i: nat) {
    exists k | 0 <= k < |ops| :: DroppedAt(ops, i, k)
  }

  /** The queue holds the latest accepted events, at most CAPACITY of them. */
  lemma {:induction false} RingKeepsLatest(ops: seq<QOp>)
    ensures 0 <= Oldest(ops) && |Items(ops)| <= 127
    ensures Items(ops) == Accepted(ops)[Oldest(ops)..]
    decreases |ops|
  {
    if ops != [] {
      RingKeepsLatest(ops[..|ops| - 1]);
    }
  }

  /** The numbers from n on are appended to a list of smaller ones. */
  lemma RangeAppended(nums: seq<int>, from: int, n: nat)
    requires forall j | 0 <= j < |nums| :: 0 <= nums[j] < from
    requires forall j, k | 0 <= j < k < |nums| :: nums[j] < nums[k]
    requires from >= 0
    ensures var r := nums + Range(from, n);
            (forall j | 0 <= j < |r| :: 0 <= r[j] < from + n && r[j] == if j < |nums| then nums[j]
              else from + j - |nums|)
            && (forall j, k | 0 <= j < k < |r| :: r[j] < r[k])
  {
  }

  /** Delivered events come in order, none twice, each the accepted event of its number. */
  lemma {:induction false} DeliveredInOrder(ops: seq<QOp>)
    ensures |Numbers(ops)| == |Delivered(ops)|
    ensures forall j | 0 <= j < |Numbers(ops)| :: 0 <= Numbers(ops)[j] < Oldest(ops) <= |Accepted(ops)|
    ensures forall j | 0 <= j < |Numbers(ops)| :: Delivered(ops)[j] == Accepted(ops)[Numbers(ops)[j]]
    ensures forall j, k | 0 <= j < k < |Numbers(ops)| :: Numbers(ops)[j] < Numbers(ops)[k]
    decreases |ops|
  {
    if ops != [] {
      var before := ops[..|ops| - 1];
      DeliveredInOrder(before);
      RingKeepsLatest(before);
      RingKeepsLatest(ops);
      match ops[|ops| - 1]
      case Put(_) =>
      case Take(n) =>
        RangeAppended(Numbers(before), Oldest(before), |Taken(Items(before), n)|);
    }
  }

  lemma DroppedExtends(ops: seq<QOp>, i: nat)
    requires ops != []
    ensures Dropped(ops, i) <==> Dropped(ops[..|ops| - 1], i) || DroppedAt(ops, i, |ops| - 1)
  {
    var before := ops[..|ops| - 1];
    forall k | 0 <= k < |before| ensures DroppedAt(ops, i, k) == DroppedAt(before, i, k) {
      assert ops[..k] == before[..k];
    }
  }

  /** An accepted event that left the queue was delivered or dropped, never both; it is dropped
      exactly when CAPACITY later events were accepted before it was read. */
  lemma {:induction false} LostExactly(ops: seq<QOp>, i: nat)
    ensures i < Oldest(ops) <==> (i in Numbers(ops) || Dropped(ops, i))
    ensures !(i in Numbers(ops) && Dropped(ops, i))
    ensures Dropped(ops, i) ==> i + CAPACITY < |Accepted(ops)|
    decreases |ops|
  {
    if ops == [] {
      return;
    }
    var before := ops[..|ops| - 1];
    LostExactly(before, i);
    DroppedExtends(ops, i);
    RingKeepsLatest(before);
    RingKeepsLatest(ops);
    DeliveredInOrder(before);
    match ops[|ops| - 1]
    case Put(_) =>
    case Take(n) =>
      var from, len := Oldest(before), |Taken(Items(before), n)|;
      assert from <= i < from + len ==> Range(from, len)[i - from] == i;
      assert i in Range(from, len) <==> from <= i < from + len;
  }

  /** A taking hands over exactly as many as asked for and there. */
  lemma TakenCount(items: seq<Stamp>, n: nat)
    ensures |Taken(items, n)| == if n <= |items| then n else |items|
    ensures |Left(items, n)| == |items| - |Taken(items, n)|
  {
  }

  lemma TakenLeft(items: seq<Stamp>, n: nat)
    ensures Taken(items, n) + Left(items, n) == items
  {
  }

  /** A reader that never lets CAPACITY events wait unread misses nothing. */
  lemma {:induction false} PromptReaderMissesNothing(ops: seq<QOp>)
    requires forall k | 0 <= k < |ops| && ops[k].Put? :: |Items(ops[..k])| < CAPACITY
    ensures Delivered(ops) + Items(ops) == Accepted(ops)
    decreases |ops|
  {
    if ops != [] {
      var before := ops[..|ops| - 1];
      forall k | 0 <= k < |before| && before[k].Put? ensures |Items(before[..k])| < CAPACITY {
        assert ops[..k] == before[..k] && ops[k].Put?;
      }
      PromptReaderMissesNothing(before);
      match ops[|ops| - 1]
      case Put(x) =>
        assert Delivered(before) + (Items(before) + [x]) == Delivered(before) + Items(before) + [x];
      case Take(n) =>
        TakenLeft(Items(before), n);
        assert Delivered(before) + (Taken(Items(before), n) + Left(Items(before), n))
            == Delivered(before) + Taken(Items(before), n) + Left(Items(before), n);
    }
  }

  // ---- all queues of a clock ------------------------------------------------------------------

  datatype Queue = Queue(mask: seq<bool>, items: seq<Stamp>)

  /** Queues by the order in which they were opened; queue 0 is the clock's own. */
  datatype Clock = Clock(queues: map<nat, Queue>, next: nat)

  datatype Op =
    | Open
    | Release(id: nat)
    | Event(index: nat, ts: nat)
    | Read(id: nat, n: nat)
    | Fifo
    | MaskClear(id: nat)
    | MaskSet(id: nat, channel: nat)

  function Channels(on: bool): seq<bool> {
    seq(MAX_CHANNELS, _ => on)
  }

  predicate Listens(q: Queue, channel: nat) {
    channel < |q.mask| && q.mask[channel]
  }

  function Fresh(): Queue { Queue(Channels(true), []) }

  const REGISTERED: Clock := Clock(map[0 := Fresh()], 1)

  function Hear(q: Queue, index: nat, ts: nat): Queue {
    if Listens(q, index) then q.(items := Push(q.items, Split(index, ts))) else q
  }

  function Draw(c: Clock, id: nat, n: nat): Clock {
    if id in c.queues then c.(queues := c.queues[id := c.queues[id].(items := Left(c.queues[id].items, n))]) else c
  }

  function Remask(c: Clock, id: nat, mask: seq<bool>): Clock {
    if id in c.queues then c.(queues := c.queues[id := c.queues[id].(mask := mask)]) else c
  }

  function Step(c: Clock, op: Op): Clock {
    match op
    case Open => Clock(c.queues[c.next := Fresh()], c.next + 1)
    case Release(id) => c.(queues := c.queues - {id})
    case Event(index, ts) => c.(queues := map id | id in c.queues :: Hear(c.queues[id], index, ts))
    case Read(id, n) => Draw(c, id, n)
    case Fifo => Draw(c, 0, 1)
    case MaskClear(id) => Remask(c, id, Channels(false))
    case MaskSet(id, ch) => if id in c.queues && ch < |c.queues[id].mask|
      then Remask(c, id, c.queues[id].mask[ch := true]) else c
  }

  function Run(ops: seq<Op>): Clock
    decreases |ops|
  {
    if ops == [] then REGISTERED else Step(Run(ops[..|ops| - 1]), ops[|ops| - 1])
  }

  // ---- what a history is to one queue ------------------------------------------------------------

  /** How many queues have been opened, the clock's own included. */
  function Opened(ops: seq<Op>): nat
    decreases |ops|
  {
    if ops == [] then 1 else Opened(ops[..|ops| - 1]) + if ops[|ops| - 1].Open? then 1 else 0
  }

  /** Queue id is open: the clock's own from the start, another from its opening to its release. */
  predicate Live(ops: seq<Op>, id: nat)
    decreases |ops|
  {
    if ops == [] then id == 0
    else
      var before := ops[..|ops| - 1];
      match ops[|ops| - 1]
      case Open => Live(before, id) || id == Opened(before)
      case Release(i) => Live(before, id) && i != id
      case _ => Live(before, id)
  }

  /** Channel ch of queue id is on: every channel is when the queue is opened, none after its mask is
      cleared, and each again once it is enabled. */
  predicate On(ops: seq<Op>, id: nat, ch: nat)
    decreases |ops|
  {
    ops == []
    || (var before := ops[..|ops| - 1];
        !Live(before, id)
        || match ops[|ops| - 1]
           case MaskClear(i) => i != id && On(before, id, ch)
           case MaskSet(i, c) => (i == id && c == ch) || On(before, id, ch)
           case _ => On(before, id, ch))
  }

  /** What one more operation is to queue id. */
  function Heard(before: seq<Op>, op: Op, id: nat): seq<QOp> {
    match op
    case Event(index, ts) => if Live(before, id) && index < 2048 && On(before, id, index)
      then [Put(Split(index, ts))] else []
    case Read(i, n) => if i == id && Live(before, id) then [Take(n)] else []
    case Fifo => if id == 0 && Live(before, id) then [Take(1)] else []
    case _ => []
  }

  /** What a whole history is to queue id: events on the channels it listened to at the time, and
      its own reads (for queue 0 also the sysfs reads). */
  function Project(ops: seq<Op>, id: nat): seq<QOp>
    decreases |ops|
  {
    if ops == [] then []
    else Project(ops[..|ops| - 1], id) + Heard(ops[..|ops| - 1], ops[|ops| - 1], id)
  }

  lemma {:induction false} LiveIs(ops: seq<Op>, id: nat)
    ensures id in Run(ops).queues <==> Live(ops, id)
    ensures Run(ops).next == Opened(ops)
    ensures Live(ops, id) ==> id < Opened(ops)
    decreases |ops|
  {
    if ops != [] {
      LiveIs(ops[..|ops| - 1], id);
    }
  }

  lemma StepMask(c: Clock, op: Op, id: nat)
    requires id in c.queues && id < c.next && id in Step(c, op).queues
    ensures Step(c, op).queues[id].mask ==
      match op
      case MaskClear(i) => if i == id then seq(2048, _ => false) else c.queues[id].mask
      case MaskSet(i, ch) => if i == id && ch < |c.queues[id].mask| then c.queues[id].mask[ch := true]
        else c.queues[id].mask
      case _ => c.queues[id].mask
  {
  }

  /** The mask of an open queue is what the history says. */
  lemma {:induction false} MaskIs(ops: seq<Op>, id: nat)
    requires id in Run(ops).queues
    ensures |Run(ops).queues[id].mask| == 2048
    ensures forall ch: nat | ch < 2048 :: Run(ops).queues[id].mask[ch] == On(ops, id, ch)
    decreases |ops|
  {
    if ops != [] {
      var before, op := ops[..|ops| - 1], ops[|ops| - 1];
      LiveIs(before, id);
      LiveIs(ops, id);
      if id in Run(before).queues {
        MaskIs(before, id);
        StepMask(Run(before), op, id);
      }
    }
  }

  /** What an operation is to queue id in the clock's own terms. */
  function Reached(c: Clock, op: Op, id: nat): seq<QOp> {
    match op
    case Event(index, ts) => if id in c.queues && Listens(c.queues[id], index) then [Put(Split(index, ts))] else []
    case Read(i, n) => if i == id && id in c.queues then [Take(n)] else []
    case Fifo => if id == 0 && id in c.queues then [Take(1)] else []
    case _ => []
  }

  lemma HeardIsReached(before: seq<Op>, op: Op, id: nat)
    ensures Heard(before, op, id) == Reached(Run(before), op, id)
  {
    LiveIs(before, id);
    if id in Run(before).queues {
      MaskIs(before, id);
    }
  }

  /** What one operation returns from queue id. */
  function Handed(c: Clock, op: Op, id: nat): seq<Stamp> {
    match op
    case Read(i, n) => if i == id && id in c.queues then Taken(c.queues[id].items, n) else []
    case Fifo => if id == 0 && id in c.queues then Taken(c.queues[id].items, 1) else []
    case _ => []
  }

  /** What the reads of queue id returned. */
  function Returned(ops: seq<Op>, id: nat): seq<Stamp>
    decreases |ops|
  {
    if ops == [] then []
    else Returned(ops[..|ops| - 1], id) + Handed(Run(ops[..|ops| - 1]), ops[|ops| - 1], id)
  }

  lemma OneMore(qs: seq<QOp>, h: seq<QOp>)
    requires |h| <= 1
    ensures h == [] ==> qs + h == qs
    ensures h != [] ==> qs + h != [] && (qs + h)[..|qs + h| - 1] == qs && (qs + h)[|qs + h| - 1] == h[0]
  {
  }

  function OnQueue(items: seq<Stamp>, h: seq<QOp>): seq<Stamp> {
    if h == [] then items
    else
      match h[0]
      case Put(x) => Push(items, x)
      case Take(n) => Left(items, n)
  }

  lemma ItemsAfter(qs: seq<QOp>, h: seq<QOp>)
    requires |h| <= 1
    ensures Items(qs + h) == OnQueue(Items(qs), h)
  {
    OneMore(qs, h);
  }

  /** What a step does to queue id, whether it is open, opened by the step, or neither. */
  lemma StepOnQueue(c: Clock, op: Op, id: nat)
    requires id in c.queues ==> id < c.next
    ensures id in Step(c, op).queues ==>
              id < Step(c, op).next
              && Step(c, op).queues[id].items == if id in c.queues
                then OnQueue(c.queues[id].items, Reached(c, op, id)) else []
    ensures id in Step(c, op).queues && id !in c.queues ==> id == c.next
    ensures c.next <= Step(c, op).next
    ensures id !in c.queues ==> Reached(c, op, id) == []
    ensures |Reached(c, op, id)| <= 1
  {
  }

  /** Queues do not disturb one another: each is the FIFO of what it alone heard. */
  lemma {:induction false} QueuesAreSeparate(ops: seq<Op>, id: nat)
    ensures id in Run(ops).queues ==> id < Run(ops).next && Run(ops).queues[id].items == Items(Project(ops, id))
    ensures id >= Run(ops).next ==> Project(ops, id) == []
    decreases |ops|
  {
    hide Step, Heard, Reached, OnQueue;
    if ops != [] {
      var before := ops[..|ops| - 1];
      var c, op := Run(before), ops[|ops| - 1];
      QueuesAreSeparate(before, id);
      StepOnQueue(c, op, id);
      HeardIsReached(before, op, id);
      ItemsAfter(Project(before, id), Reached(c, op, id));
    }
  }

  function FromQueue(items: seq<Stamp>, h: seq<QOp>): seq<Stamp> {
    if h != [] && h[0].Take? then Taken(items, h[0].n) else []
  }

  lemma DeliveredAfter(qs: seq<QOp>, h: seq<QOp>)
    requires |h| <= 1
    ensures Delivered(qs + h) == Delivered(qs) + FromQueue(Items(qs), h)
  {
    OneMore(qs, h);
    assert Delivered(qs) + [] == Delivered(qs);
  }

  lemma HandedIs(c: Clock, op: Op, id: nat)
    ensures |Reached(c, op, id)| <= 1
    ensures Handed(c, op, id) == if id in c.queues then FromQueue(c.queues[id].items, Reached(c, op, id)) else []
    ensures id !in c.queues ==> Reached(c, op, id) == []
  {
  }

  lemma {:induction false} ReadsAreDelivered(ops: seq<Op>, id: nat)
    ensures Returned(ops, id) == Delivered(Project(ops, id))
    decreases |ops|
  {
    hide Handed, Reached, FromQueue, Heard, Items, Delivered;
    if ops != [] {
      var before, op := ops[..|ops| - 1], ops[|ops| - 1];
      ReadsAreDelivered(before, id);
      QueuesAreSeparate(before, id);
      HeardIsReached(before, op, id);
      HandedIs(Run(before), op, id);
      DeliveredAfter(Project(before, id), Heard(before, op, id));
      NothingDelivered(Items(Project(before, id)));
    } else {
      NothingDelivered([]);
    }
  }

  lemma NothingDelivered(items: seq<Stamp>)
    ensures FromQueue(items, []) == [] && Delivered([]) == []
  {
  }

  /** Over any run of a clock: what queue id's reads returned are events it heard, in order and
      without repetition; event number i is pending, at its place in the queue, or else either returned
      or dropped, and dropped only after 127 later ones. */
  lemma EveryReaderIsServed(ops: seq<Op>, id: nat)
    ensures var p := Project(ops, id);
            && |Returned(ops, id)| == |Numbers(p)|
            && (forall j | 0 <= j < |Numbers(p)| ::
                  0 <= Numbers(p)[j] < |Accepted(p)| && Returned(ops, id)[j] == Accepted(p)[Numbers(p)[j]])
            && (forall j, k | 0 <= j < k < |Numbers(p)| :: Numbers(p)[j] < Numbers(p)[k])
            && 0 <= Oldest(p) <= |Accepted(p)|
            && (id in Run(ops).queues ==> Run(ops).queues[id].items == Accepted(p)[Oldest(p)..])
            && (forall i: nat | i < |Accepted(p)| ::
                  (i < Oldest(p) <==> (i in Numbers(p) || Dropped(p, i)))
                  && !(i in Numbers(p) && Dropped(p, i))
                  && (Dropped(p, i) ==> i + 127 < |Accepted(p)|))
  {
    var p := Project(ops, id);
    ReadsAreDelivered(ops, id);
    RingKeepsLatest(p);
    DeliveredInOrder(p);
    QueuesAreSeparate(ops, id);
    forall i: nat | i < |Accepted(p)|
      ensures (i < Oldest(p) <==> (i in Numbers(p) || Dropped(p, i))) && !(i in Numbers(p) && Dropped(p, i))
      ensures Dropped(p, i) ==> i + CAPACITY < |Accepted(p)|
    {
      LostExactly(p, i);
    }
  }
}
