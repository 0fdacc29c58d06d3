/** Timestamp queues in place: the ring buffer, its readers, and the clock's list of queues. */
module EventQueue {
  import opened Prelude
  import opened T = EventTrace

  const EVENT_SIZE: nat := 32
  const BUFSIZE: nat := BUF_TIMESTAMPS * EVENT_SIZE

  class TimestampQueue {
    const id: nat
    const buf: array<Stamp>
    var head: int
    var tail: int
    var mask: seq<bool>
    ghost var items: seq<Stamp>

    ghost predicate Valid()
      reads this`head, this`tail, this`items, buf
    {
      && buf.Length == MAX_TIMESTAMPS
      && 0 <= head < MAX_TIMESTAMPS && 0 <= tail < MAX_TIMESTAMPS
      && |items| == Cnt()
      && forall k {:trigger items[k]} | 0 <= k < |items| :: buf[Slot(head + k)] == items[k]
    }

    ghost function View(): T.Queue
      reads this`mask, this`items
    {
      T.Queue(mask, items)
    }

    /** Where the ring continues for i below twice its size. */
    static function Slot(i: int): int { if i < MAX_TIMESTAMPS then i else i - MAX_TIMESTAMPS }

    /** queue_cnt. */
    function Cnt(): (n: int)
      reads this`head, this`tail
      ensures 0 <= head < MAX_TIMESTAMPS && 0 <= tail < MAX_TIMESTAMPS ==> 0 <= n <= CAPACITY && Slot(head + n) == tail
    {
      var cnt := tail - head;
      if cnt < 0 then MAX_TIMESTAMPS + cnt else cnt
    }

    /** queue_free. */
    function Free(): int
      reads this`head, this`tail
    {
      MAX_TIMESTAMPS - Cnt() - 1
    }

    /** bitmap_alloc, bitmap_set over all channels. */
    constructor (id: nat)
      ensures Valid() && View() == Fresh() && this.id == id && fresh(buf)
    {
      this.id := id;
      buf := new Stamp[MAX_TIMESTAMPS](_ => Stamp(0, 0, 0));
      head, tail, mask, items := 0, 0, Channels(true), [];
    }

    static lemma NextSlot(h: int)
      requires 0 <= h < MAX_TIMESTAMPS
      ensures (h + 1) % MAX_TIMESTAMPS == Slot(h + 1)
    {
    }

    static lemma SlotShift(h: int, k: int)
      requires 0 <= h < MAX_TIMESTAMPS && 0 <= k < CAPACITY
      ensures Slot(Slot(h + 1) + k) == Slot(h + (k + 1))
    {
    }

    /** Moves the head over the oldest event. */
    method Advance()
      requires Valid() && Cnt() > 0
      modifies this`head, this`items
      ensures Valid() && items == old(items)[1..] && Cnt() == old(Cnt()) - 1
      ensures head == Slot(old(head) + 1)
    {
      ghost var was := items;
      items := items[1..];
      NextSlot(head);
      forall k {:trigger items[k]} | 0 <= k < |items| ensures buf[Slot(Slot(head + 1) + k)] == items[k] {
        assert items[k] == was[k + 1];
        SlotShift(head, k);
      }
      head := (head + 1) % MAX_TIMESTAMPS;
    }

    /** Takes the oldest event. */
    method Shift() returns (event: Stamp)
      requires Valid() && Cnt() > 0
      modifies this`head, this`items
      ensures Valid() && [event] + items == old(items)
    {
      event := buf[head];
      assert event == items[0];
      Advance();
    }

    static lemma SlotsDiffer(h: int, k: int, n: int)
      requires 0 <= h < MAX_TIMESTAMPS && 0 <= k < n <= CAPACITY
      ensures Slot(h + k) != Slot(h + n)
    {
    }

    /** Fills the vacant slot at the tail, which no queued event occupies. */
    method Fill(dst: Stamp)
      requires Valid()
      modifies buf
      ensures Valid() && buf[tail] == dst
    {
      buf[tail] := dst;
      forall k {:trigger items[k]} | 0 <= k < |items| ensures buf[Slot(head + k)] == items[k] {
        SlotsDiffer(head, k, |items|);
        assert old(buf[Slot(head + k)]) == items[k];
      }
    }

    /** Makes the filled slot part of a queue that is not full. */
    method Append()
      requires Valid() && |items| < CAPACITY
      modifies this`tail, this`items
      ensures Valid() && items == old(items) + [buf[old(tail)]]
    {
      items := items + [buf[tail]];
      NextSlot(tail);
      tail := (tail + 1) % MAX_TIMESTAMPS;
    }

    /** enqueue_external_timestamp for a hardware timestamp: the oldest event gives way in a full
        queue. */
    method Enqueue(index: nat, timestamp: nat)
      requires Valid()
      modifies this`head, this`tail, this`items, buf
      ensures Valid() && items == Push(old(items), Split(index, timestamp))
    {
      Fill(Stamp(index, timestamp / NS, timestamp % NS));
      if Free() == 0 {
        Advance();
      }
      Append();
    }

    /** The dequeue loop of ptp_read, for a buffer of cnt bytes. */
    method Dequeue(cnt: nat) returns (events: seq<Stamp>)
      requires Valid()
      modifies this`head, this`items
      ensures Valid()
      ensures events == Taken(old(items), ReadMax(cnt)) && items == Left(old(items), ReadMax(cnt))
    {
      var n := ReadMax(cnt);
      var qcnt := Cnt();
      if n > qcnt {
        n := qcnt;
      }
      events := [];
      for i := 0 to n
        invariant Valid() && |events| == i && events + items == old(items)
      {
        var event := Shift();
        events := events + [event];
      }
      assert events == old(items)[..n] && items == old(items)[n..];
    }

    /** ptp_read: whole events only; waiting for an empty queue ends by a signal (an interrupted
        read), by removal of the clock, or by an event.  Events that cannot be copied out are gone. */
    method Read(cnt: nat, interrupted: bool, defunct: bool, allocFails: bool, copyFails: bool)
      returns (e: Errno, events: seq<Stamp>)
      requires Valid()
      requires Cnt() == 0 && !defunct ==> interrupted
      modifies this`head, this`items
      ensures Valid()
      ensures e == if cnt % EVENT_SIZE != 0 then EINVAL
                   else if old(items) == [] && !defunct then ERESTARTSYS
                   else if defunct then ENODEV
                   else if allocFails then ENOMEM
                   else if copyFails then EFAULT
                   else Ok
      ensures e == Ok ==> events == Taken(old(items), ReadMax(cnt))
      ensures e != Ok ==> events == []
      ensures items == if e in {Ok, EFAULT} then Left(old(items), ReadMax(cnt)) else old(items)
      ensures e == Ok ==> |events| == Least(cnt / 32, 30, |old(items)|)
    {
      if cnt % EVENT_SIZE != 0 {
        return EINVAL, [];
      }
      if Cnt() == 0 && !defunct {
        return ERESTARTSYS, [];
      }
      if defunct {
        return ENODEV, [];
      }
      if allocFails {
        return ENOMEM, [];
      }
      events := Dequeue(cnt);
      if copyFails {
        return EFAULT, [];
      }
      return Ok, events;
    }

    lemma CntIs()
      requires Valid()
      ensures Cnt() == |items|
    {
    }
  }

  function Least(a: nat, b: nat, c: nat): nat {
    if a <= b && a <= c then a else if b <= c then b else c
  }

  /** The number of events that fit a read of cnt bytes. */
  function ReadMax(cnt: nat): nat {
    (if cnt > BUFSIZE then BUFSIZE else cnt) / EVENT_SIZE
  }

  /** The queues of a clock in the order of their opening, the clock's own first; none is aliased. */
  ghost predicate Separate(queues: seq<TimestampQueue>) {
    && |queues| > 0 && queues[0].id == 0
    && forall i, j {:trigger queues[i], queues[j]} | 0 <= i < j < |queues| ::
         queues[i] != queues[j] && queues[i].buf != queues[j].buf && queues[i].id < queues[j].id
  }

  ghost predicate Covers(queues: seq<TimestampQueue>, ids: set<nat>) {
    forall id {:trigger id in ids} | id in ids ::
      exists i {:trigger queues[i]} :: 0 <= i < |queues| && queues[i].id == id
  }

  class PtpClock {
    var queues: seq<TimestampQueue>
    var next: nat
    ghost var view: Clock

    /** The ghost view is the abstract clock the queues stand for. */
    ghost predicate Valid()
      reads this, queues, set q | q in queues :: q.buf
    {
      && Separate(queues)
      && view.next == next
      && Covers(queues, view.queues.Keys)
      && (forall i {:trigger queues[i]} | 0 <= i < |queues| ::
            queues[i].Valid() && |queues[i].mask| == MAX_CHANNELS && queues[i].id < next
            && queues[i].id in view.queues && view.queues[queues[i].id] == queues[i].View())
    }

    /** ptp_clock_register opens the clock's own queue. */
    constructor ()
      ensures Valid() && view == REGISTERED && fresh(queues) && fresh(set q | q in queues :: q.buf)
    {
      var q := new TimestampQueue(0);
      queues, next, view := [q], 1, REGISTERED;
      assert [q][0] == q;
    }

    static lemma CoversMore(qs: seq<TimestampQueue>, ids: set<nat>, q: TimestampQueue)
      requires Covers(qs, ids)
      ensures Covers(qs + [q], ids + {q.id})
    {
      forall id | id in ids + {q.id}
        ensures exists i {:trigger (qs + [q])[i]} :: 0 <= i < |qs + [q]| && (qs + [q])[i].id == id
      {
        if id == q.id {
          assert (qs + [q])[|qs|].id == id;
        } else {
          var i :| 0 <= i < |qs| && qs[i].id == id;
          assert (qs + [q])[i].id == id;
        }
      }
    }

    static lemma CoversLess(qs: seq<TimestampQueue>, ids: set<nat>, k: nat)
      requires Covers(qs, ids) && Separate(qs) && 0 < k < |qs|
      ensures Covers(qs[..k] + qs[k + 1..], ids - {qs[k].id}) && Separate(qs[..k] + qs[k + 1..])
    {
      var left := qs[..k] + qs[k + 1..];
      assert forall i {:trigger left[i]} | 0 <= i < |left| :: left[i] == qs[if i < k then i else i + 1];
      forall id | id in ids - {qs[k].id} ensures exists i {:trigger left[i]} :: 0 <= i < |left| && left[i].id == id {
        var i :| 0 <= i < |qs| && qs[i].id == id;
        assert left[if i < k then i else i - 1].id == id;
      }
    }

    /** ptp_open; either allocation may fail. */
    method Open(queueFails: bool, maskFails: bool) returns (e: Errno, q: TimestampQueue?)
      requires Valid()
      modifies this
      ensures Valid() && e == if queueFails || maskFails then EINVAL else Ok
      ensures e == Ok <==> q != null
      ensures view == if e == Ok then Step(old(view), T.Open) else old(view)
      ensures q == null ==> queues == old(queues)
      ensures q != null ==> queues == old(queues) + [q] && q.id == old(view.next) && fresh(q) && fresh(q.buf)
    {
      if queueFails || maskFails {
        return EINVAL, null;
      }
      q := AddQueue();
      e := Ok;
    }

    /** list_add_tail of a new queue listening on every channel. */
    method AddQueue() returns (q: TimestampQueue)
      requires Valid()
      modifies this
      ensures Valid() && view == Step(old(view), T.Open)
      ensures queues == old(queues) + [q] && q.id == old(view.next) && fresh(q) && fresh(q.buf)
    {
      hide Covers, TimestampQueue.Valid;
      q := new TimestampQueue(next);
      CoversMore(queues, view.queues.Keys, q);
      view := Step(view, T.Open);
      assert view.queues.Keys == old(view).queues.Keys + {q.id};
      queues := queues + [q];
      next := next + 1;
    }

    /** ptp_release: unlinks a reader's queue, found at position k. */
    method Release(k: nat)
      requires Valid() && 0 < k < |queues|
      modifies this
      ensures Valid() && view == Step(old(view), T.Release(old(queues)[k].id))
      ensures queues == old(queues)[..k] + old(queues)[k + 1..]
    {
      hide Covers, TimestampQueue.Valid;
      ghost var was := queues;
      CoversLess(queues, view.queues.Keys, k);
      view := Step(view, T.Release(queues[k].id));
      assert view.queues.Keys == old(view).queues.Keys - {was[k].id};
      queues := queues[..k] + queues[k + 1..];
      assert forall i {:trigger queues[i]} | 0 <= i < |queues| :: queues[i] == was[if i < k then i else i + 1];
      assert forall i {:trigger queues[i]} | 0 <= i < |queues| :: queues[i].id != was[k].id;
    }

    static lemma EventOnAll(c: Clock, index: nat, timestamp: nat)
      ensures var d := Step(c, T.Event(index, timestamp));
              d.queues.Keys == c.queues.Keys && d.next == c.next
              && forall id | id in c.queues :: d.queues[id] == Hear(c.queues[id], index, timestamp)
    {
    }

    /** ptp_clock_event for a hardware timestamp: every queue listening on the channel gets it. */
    method Event(index: nat, timestamp: nat)
      requires Valid()
      modifies this`view, queues, set q | q in queues :: q.buf
      ensures Valid() && view == Step(old(view), T.Event(index, timestamp))
    {
      hide Covers, TimestampQueue.Valid, Push, Split, Step;
      for i := 0 to |queues|
        invariant view == old(view)
        invariant forall k {:trigger queues[k]} | 0 <= k < |queues| ::
                    queues[k].Valid()
                    && queues[k].mask == old(queues[k].mask)
                    && queues[k].View() == if k < i then Hear(old(queues[k].View()), index, timestamp)
                      else old(queues[k].View())
      {
        var tsevq := queues[i];
        if index < |tsevq.mask| && tsevq.mask[index] {
          tsevq.Enqueue(index, timestamp);
        }
      }
      EventOnAll(view, index, timestamp);
      view := Step(view, T.Event(index, timestamp));
    }

    /** After queue k alone has changed, only its entry of the view changes. */
    ghost method Settle(k: nat, c: Clock)
      requires k < |queues| && Separate(queues) && Covers(queues, view.queues.Keys) && view.next == next
      requires forall i {:trigger queues[i]} | 0 <= i < |queues| ::
                 queues[i].Valid() && |queues[i].mask| == MAX_CHANNELS && queues[i].id < next
                 && queues[i].id in view.queues && (i != k ==> view.queues[queues[i].id] == queues[i].View())
      requires c == view.(queues := view.queues[queues[k].id := queues[k].View()])
      modifies this`view
      ensures Valid() && view == c
    {
      hide TimestampQueue.Valid;
      assert c.queues.Keys == view.queues.Keys;
      view := c;
    }

    /** ptp_read on the queue at position k. */
    method Read(k: nat, cnt: nat, interrupted: bool, defunct: bool, allocFails: bool, copyFails: bool)
      returns (e: Errno, events: seq<Stamp>)
      requires Valid() && k < |queues|
      requires queues[k].Cnt() == 0 && !defunct ==> interrupted
      modifies this`view, queues[k]
      ensures Valid()
      ensures view == if e in {Ok, EFAULT} then Step(old(view), T.Read(queues[k].id, ReadMax(cnt))) else old(view)
      ensures events == if e == Ok then Taken(old(view).queues[queues[k].id].items, ReadMax(cnt)) else []
    {
      hide Covers, TimestampQueue.Valid;
      e, events := queues[k].Read(cnt, interrupted, defunct, allocFails, copyFails);
      if e in {Ok, EFAULT} {
        Settle(k, Step(view, T.Read(queues[k].id, ReadMax(cnt))));
      }
    }

    /** extts_fifo_show: draws one event from the first queue in the list.  text gives the length of a
        printed event; for an empty queue the count of queues is returned. */
    method FifoShow(text: Stamp -> nat) returns (event: Option<Stamp>, cnt: nat)
      requires Valid()
      modifies this`view, queues[0]
      ensures Valid() && view == Step(old(view), T.Fifo)
      ensures event == if old(view).queues[0].items == [] then None else Some(old(view).queues[0].items[0])
      ensures view.queues[0].items == old(view).queues[0].items[if event.Some? then 1 else 0..]
      ensures cnt == if event.Some? then text(event.value) else |queues|
    {
      hide Covers, TimestampQueue.Valid;
      event, cnt := None, |queues|;
      var queue := queues[0];
      queue.CntIs();
      if queue.Cnt() > 0 {
        var x := queue.Shift();
        event, cnt := Some(x), text(x);
      }
      Settle(0, Step(view, T.Fifo));
    }

    /** PTP_MASK_CLEAR_ALL by the reader at position k. */
    method MaskClearAll(k: nat)
      requires Valid() && k < |queues|
      modifies this`view, queues[k]
      ensures Valid() && view == Step(old(view), T.MaskClear(queues[k].id))
    {
      hide Covers, TimestampQueue.Valid;
      queues[k].mask := Channels(false);
      Settle(k, Step(view, T.MaskClear(queues[k].id)));
    }

    /** PTP_MASK_EN_SINGLE by the reader at position k. */
    method MaskEnSingle(k: nat, i: nat) returns (e: Errno)
      requires Valid() && k < |queues|
      modifies this`view, queues[k]
      ensures Valid() && view == Step(old(view), T.MaskSet(queues[k].id, i))
      ensures e == if i >= MAX_CHANNELS then EFAULT else Ok
    {
      hide Covers, TimestampQueue.Valid;
      if i >= MAX_CHANNELS {
        return EFAULT;
      }
      queues[k].mask := queues[k].mask[i := true];
      Settle(k, Step(view, T.MaskSet(queues[k].id, i)));
      return Ok;
    }
  }
}
