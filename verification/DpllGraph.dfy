/** The DPLL reference graph (dpll/dpll_core.c) as a value.

    Devices and pins hold mutual tables of references.  A reference carries the list of
    registrations made through it and a count.  This module says what each operation does
    to the two halves of the graph and proves what every run keeps; DpllCore holds the
    objects and loops that carry the operations out. */
module DpllGraph {
  import opened Prelude

  /** An ops table: its identity and the callbacks whose presence is checked. */
  datatype PinOps = PinOps(id: nat, stateOnDpllGet: bool, stateOnPinGet: bool, directionGet: bool)
  datatype Cookie = NoCookie | PinCookie(pin: nat)
  datatype Reg = Reg(ops: PinOps, priv: nat, cookie: Cookie)
  datatype DevReg = DevReg(ops: nat, priv: nat)

  /** A reference; target is the identity (xarray id) of the object pointed to. */
  datatype Ref = Ref(target: nat, regs: seq<Reg>, refcount: nat)
  type Refs = map<nat, Ref>

  datatype Device = Device(clockId: nat, index: nat, owner: nat, pinRefs: Refs, refcount: nat, regs: seq<DevReg>)
  datatype Pin = Pin(clockId: nat, index: nat, owner: nat, mux: bool,
                     dpllRefs: Refs, parentRefs: Refs, refcount: int)
  datatype Graph = Graph(devices: map<nat, Device>, pins: map<nat, Pin>,
                         deviceMarks: set<nat>, pinMarks: set<nat>)

  /** Which of the steps that may fail for want of memory succeed. */
  datatype Alloc = Alloc(ref: bool, slot: bool, reg: bool)
  datatype PairAlloc = PairAlloc(onDevice: Alloc, onPin: Alloc)

  // ---- registration lists and single references -----------------------------

  ghost predicate Distinct<T>(s: seq<T>) {
    forall i, j | 0 <= i < j < |s| :: s[i] != s[j]
  }

  function RemoveFirst<T(==)>(s: seq<T>, x: T): (r: seq<T>)
    ensures x !in s ==> r == s
    ensures x in s ==> |r| == |s| - 1
    ensures forall y | y in r :: y in s
    ensures forall y | y in s && y != x :: y in r
  {
    if s == [] then [] else if s[0] == x then s[1..] else [s[0]] + RemoveFirst(s[1..], x)
  }

  lemma {:induction false} RemoveFirstDistinct<T>(s: seq<T>, x: T)
    requires Distinct(s)
    ensures Distinct(RemoveFirst(s, x))
    ensures x !in RemoveFirst(s, x)
  {
    if s != [] && s[0] != x {
      RemoveFirstDistinct(s[1..], x);
      var r := RemoveFirst(s[1..], x);
      assert s[0] !in s[1..];
      assert s[0] !in r;
    } else if s != [] {
      assert s[0] !in s[1..];
    }
  }

  lemma {:induction false} RemoveFirstAppended<T>(s: seq<T>, x: T)
    requires x !in s
    ensures RemoveFirst(s + [x], x) == s
  {
    if s == [] {
      assert s + [x] == [x];
    } else {
      RemoveFirstAppended(s[1..], x);
      assert (s + [x])[1..] == s[1..] + [x];
    }
  }

  /** What every reference satisfies: distinct triples, never more of them than the count. */
  ghost predicate RefOk(r: Ref) {
    r.refcount >= 1 && r.refcount >= |r.regs| && Distinct(r.regs)
  }

  function Get(refs: Refs, key: nat): Option<Ref> {
    if key in refs then Some(refs[key]) else None
  }

  function Put(refs: Refs, key: nat, r: Option<Ref>): Refs {
    match r
    case None => refs - {key}
    case Some(v) => refs[key := v]
  }

  /** One more registration through a reference that may not exist yet.  A triple already
      listed only raises the count. */
  function Bump(e: Option<Ref>, target: nat, reg: Reg): Ref {
    match e
    case None => Ref(target, [reg], 1)
    case Some(r) =>
      if reg in r.regs then r.(refcount := r.refcount + 1)
      else r.(regs := r.regs + [reg], refcount := r.refcount + 1)
  }

  /** One registration less; an unlisted triple changes nothing. */
  function Drop(r: Ref, reg: Reg): Option<Ref> {
    if reg !in r.regs then Some(r)
    else if r.refcount <= 1 then None
    else Some(r.(regs := RemoveFirst(r.regs, reg), refcount := r.refcount - 1))
  }

  lemma BumpOk(e: Option<Ref>, target: nat, reg: Reg)
    requires e.Some? ==> RefOk(e.value)
    ensures RefOk(Bump(e, target, reg))
    ensures reg in Bump(e, target, reg).regs
  {
  }

  /** A reference is given up only with its last registration. */
  lemma DropOk(r: Ref, reg: Reg)
    requires RefOk(r)
    ensures Drop(r, reg).Some? ==> RefOk(Drop(r, reg).value) && Drop(r, reg).value.target == r.target
    ensures Drop(r, reg).None? ==> r.regs == [reg] && r.refcount == 1
  {
    RemoveFirstDistinct(r.regs, reg);
  }

  /** Adding then dropping a triple is the identity exactly when the triple was not listed. */
  lemma DropUndoesBump(e: Option<Ref>, target: nat, reg: Reg)
    requires e.Some? ==> RefOk(e.value)
    ensures Drop(Bump(e, target, reg), reg) == e <==> (e.Some? ==> reg !in e.value.regs)
  {
    if e.Some? && reg !in e.value.regs {
      RemoveFirstAppended(e.value.regs, reg);
    }
  }

  // ---- dpll_xa_ref_{pin,dpll}_{add,del} --------------------------------------

  /** The slot the search loop stops at: the first one whose reference points to target. */
  function Lookup(refs: Refs, target: nat): Option<nat> {
    Next(set k | k in refs && refs[k].target == target, 0)
  }

  function Added(refs: Refs, key: nat, target: nat, reg: Reg, a: Alloc): (Refs, Errno) {
    match Lookup(refs, target)
    case Some(k) =>
      if reg in refs[k].regs then (refs[k := refs[k].(refcount := refs[k].refcount + 1)], Ok)
      else if !a.reg then (refs, ENOMEM)
      else (refs[k := Ref(target, refs[k].regs + [reg], refs[k].refcount + 1)], Ok)
    case None =>
      if !a.ref then (refs, ENOMEM)
      else if key in refs then (refs, EBUSY)
      else if !a.slot || !a.reg then (refs, ENOMEM)
      else (refs[key := Ref(target, [reg], 1)], Ok)
  }

  function Removed(refs: Refs, target: nat, reg: Reg): (Refs, Errno) {
    match Lookup(refs, target)
    case None => (refs, EINVAL)
    case Some(k) =>
      if reg !in refs[k].regs then (refs, EINVAL)
      else (Put(refs, k, Drop(refs[k], reg)), Ok)
  }

  /** target can only sit in slot key. */
  ghost predicate Slotted(refs: Refs, target: nat, key: nat) {
    forall k | k in refs && refs[k].target == target :: k == key
  }

  predicate Holds(refs: Refs, key: nat, target: nat) {
    key in refs && refs[key].target == target
  }

  lemma LookupSlotted(refs: Refs, target: nat, key: nat)
    requires Slotted(refs, target, key)
    ensures Lookup(refs, target) == if Holds(refs, key, target) then Some(key) else None
  {
    var s := set k | k in refs && refs[k].target == target;
    var n := Next(s, 0);
    if Holds(refs, key, target) {
      assert key in s;
      assert n.Some?;
    }
  }

  /** In a slotted table a successful add is Bump in the right slot; a failed one changes nothing. */
  lemma AddedSlotted(refs: Refs, key: nat, target: nat, reg: Reg, a: Alloc)
    requires Slotted(refs, target, key)
    ensures Added(refs, key, target, reg, a).1 == Ok ==>
      && Added(refs, key, target, reg, a).0 == refs[key := Bump(Get(refs, key), target, reg)]
      && (key in refs ==> refs[key].target == target)
    ensures Added(refs, key, target, reg, a).1 != Ok ==> Added(refs, key, target, reg, a).0 == refs
    ensures Holds(refs, key, target) && reg in refs[key].regs ==> Added(refs, key, target, reg, a).1 == Ok
  {
    LookupSlotted(refs, target, key);
  }

  lemma RemovedSlotted(refs: Refs, key: nat, target: nat, reg: Reg)
    requires Slotted(refs, target, key)
    ensures Holds(refs, key, target) ==> Removed(refs, target, reg).0 == Put(refs, key, Drop(refs[key], reg))
    ensures !Holds(refs, key, target) ==> Removed(refs, target, reg).0 == refs
  {
    LookupSlotted(refs, target, key);
    if Holds(refs, key, target) && reg !in refs[key].regs {
      assert refs == refs[key := refs[key]];
    }
  }

  // ---- the two halves of the graph -------------------------------------------

  /** What both halves must agree on. */
  datatype Link = Link(regs: seq<Reg>, refcount: nat)

  /** The link between d and p as the device records it. */
  function DeviceHalf(g: Graph, d: nat, p: nat): Option<Link>
    requires d in g.devices && p in g.pins
  {
    var refs := g.devices[d].pinRefs;
    var key := g.pins[p].index;
    if Holds(refs, key, p) then Some(Link(refs[key].regs, refs[key].refcount)) else None
  }

  /** The link between d and p as the pin records it. */
  function PinHalf(g: Graph, d: nat, p: nat): Option<Link>
    requires p in g.pins
  {
    var refs := g.pins[p].dpllRefs;
    if d in refs then Some(Link(refs[d].regs, refs[d].refcount)) else None
  }

  ghost predicate DeviceTable(g: Graph, d: nat)
    requires d in g.devices
  {
    forall k | k in g.devices[d].pinRefs ::
      var r := g.devices[d].pinRefs[k];
      r.target in g.pins && g.pins[r.target].index == k && RefOk(r)
  }

  ghost predicate PinTable(g: Graph, p: nat)
    requires p in g.pins
  {
    forall k | k in g.pins[p].dpllRefs ::
      var r := g.pins[p].dpllRefs[k];
      r.target == k && k in g.devices && RefOk(r)
  }

  ghost predicate ParentTable(g: Graph, p: nat)
    requires p in g.pins
  {
    forall k | k in g.pins[p].parentRefs ::
      var r := g.pins[p].parentRefs[k];
      r.target in g.pins && g.pins[r.target].index == k && RefOk(r)
  }

  ghost predicate Mirrored(g: Graph) {
    forall d, p {:trigger DeviceHalf(g, d, p)} {:trigger PinHalf(g, d, p)} | d in g.devices && p in g.pins ::
      DeviceHalf(g, d, p) == PinHalf(g, d, p)
  }

  ghost predicate MarksExact(g: Graph) {
    && (forall p :: p in g.pinMarks <==> p in g.pins && g.pins[p].dpllRefs != map[])
    && (forall d :: d in g.deviceMarks <==> d in g.devices && g.devices[d].regs != [])
  }

  ghost predicate UniqueObjects(g: Graph) {
    && (forall d, e {:trigger SameDevice(g.devices[d], g.devices[e].clockId, g.devices[e].index, g.devices[e].owner)}
          | d in g.devices && e in g.devices && d != e ::
          !SameDevice(g.devices[d], g.devices[e].clockId, g.devices[e].index, g.devices[e].owner))
    && (forall p, q {:trigger SamePin(g.pins[p], g.pins[q].clockId, g.pins[q].index, g.pins[q].owner)}
          | p in g.pins && q in g.pins && p != q ::
          !SamePin(g.pins[p], g.pins[q].clockId, g.pins[q].index, g.pins[q].owner))
    && (forall d {:trigger Distinct(g.devices[d].regs)} | d in g.devices :: Distinct(g.devices[d].regs))
  }

  predicate SameDevice(d: Device, clockId: nat, index: nat, owner: nat) {
    d.clockId == clockId && d.index == index && d.owner == owner
  }

  predicate SamePin(p: Pin, clockId: nat, index: nat, owner: nat) {
    p.clockId == clockId && p.index == index && p.owner == owner
  }

  /** The invariant of every reachable graph. */
  ghost predicate Inv(g: Graph) {
    && (forall d {:trigger DeviceTable(g, d)} | d in g.devices :: DeviceTable(g, d))
    && (forall p {:trigger PinTable(g, p)} | p in g.pins :: PinTable(g, p))
    && (forall p {:trigger ParentTable(g, p)} | p in g.pins :: ParentTable(g, p))
    && Mirrored(g)
    && MarksExact(g)
    && UniqueObjects(g)
  }

  // ---- one registration on a set of devices -----------------------------------

  function DeviceLinked(dev: Device, key: nat, p: nat, reg: Reg): Device {
    dev.(pinRefs := dev.pinRefs[key := Bump(Get(dev.pinRefs, key), p, reg)])
  }

  function DeviceUnlinked(dev: Device, key: nat, p: nat, reg: Reg): Device {
    if Holds(dev.pinRefs, key, p)
    then dev.(pinRefs := Put(dev.pinRefs, key, Drop(dev.pinRefs[key], reg)))
    else dev
  }

  function RefsLinked(refs: Refs, ds: set<nat>, reg: Reg): Refs {
    map d | d in refs.Keys + ds :: if d in ds then Bump(Get(refs, d), d, reg) else refs[d]
  }

  function RefsUnlinked(refs: Refs, ds: set<nat>, reg: Reg): Refs {
    map d | d in refs && (d in ds ==> Drop(refs[d], reg).Some?) ::
      if d in ds then Drop(refs[d], reg).value else refs[d]
  }

  /** p registered once more, with reg, on every device of ds. */
  function Linked(g: Graph, p: nat, reg: Reg, ds: set<nat>): Graph
    requires p in g.pins
  {
    var pin := g.pins[p];
    g.(devices := map d | d in g.devices :: if d in ds then DeviceLinked(g.devices[d], pin.index, p, reg)
      else g.devices[d],
       pins := g.pins[p := pin.(dpllRefs := RefsLinked(pin.dpllRefs, ds, reg))],
       pinMarks := if ds == {} then g.pinMarks else g.pinMarks + {p})
  }

  /** p unregistered, for reg, from every device of ds. */
  function Unlinked(g: Graph, p: nat, reg: Reg, ds: set<nat>): Graph
    requires p in g.pins
  {
    var pin := g.pins[p];
    var refs := RefsUnlinked(pin.dpllRefs, ds, reg);
    g.(devices := map d | d in g.devices :: if d in ds then DeviceUnlinked(g.devices[d], pin.index, p, reg)
      else g.devices[d],
       pins := g.pins[p := pin.(dpllRefs := refs)],
       pinMarks := if refs == map[] then g.pinMarks - {p} else g.pinMarks)
  }

  /** Every device of ds has pin p's slot free or already in use by p. */
  ghost predicate SlotsFree(g: Graph, p: nat, ds: set<nat>)
    requires p in g.pins
  {
    forall d | d in ds :: d in g.devices &&
      (g.pins[p].index in g.devices[d].pinRefs ==> g.devices[d].pinRefs[g.pins[p].index].target == p)
  }

  /** No device of ds lists reg for p. */
  ghost predicate FreshOn(g: Graph, p: nat, reg: Reg, ds: set<nat>)
    requires p in g.pins
  {
    forall d | d in ds && d in g.pins[p].dpllRefs :: reg !in g.pins[p].dpllRefs[d].regs
  }

  /** Linking changes nobody's identity. */
  lemma UniqueKept(g: Graph, h: Graph)
    requires UniqueObjects(g)
    requires g.devices.Keys == h.devices.Keys && g.pins.Keys == h.pins.Keys
    requires forall d | d in g.devices ::
      h.devices[d].(pinRefs := map[], refcount := 0) == g.devices[d].(pinRefs := map[], refcount := 0)
    requires forall p | p in g.pins :: h.pins[p].(dpllRefs := map[], parentRefs := map[], refcount := 0)
                                    == g.pins[p].(dpllRefs := map[], parentRefs := map[], refcount := 0)
    ensures UniqueObjects(h)
  {
    forall d, e | d in h.devices && e in h.devices && d != e
      ensures !SameDevice(h.devices[d], h.devices[e].clockId, h.devices[e].index, h.devices[e].owner)
    {
      assert !SameDevice(g.devices[d], g.devices[e].clockId, g.devices[e].index, g.devices[e].owner);
    }
    forall p, q | p in h.pins && q in h.pins && p != q
      ensures !SamePin(h.pins[p], h.pins[q].clockId, h.pins[q].index, h.pins[q].owner)
    {
      assert !SamePin(g.pins[p], g.pins[q].clockId, g.pins[q].index, g.pins[q].owner);
    }
    forall d | d in h.devices ensures Distinct(h.devices[d].regs) {
      assert Distinct(g.devices[d].regs);
    }
  }

  lemma LinkedMarks(g: Graph, p: nat, reg: Reg, ds: set<nat>)
    requires MarksExact(g) && p in g.pins
    ensures MarksExact(Linked(g, p, reg, ds))
  {
    var h := Linked(g, p, reg, ds);
    if ds != {} {
      var d :| d in ds;
      assert d in h.pins[p].dpllRefs;
    } else {
      assert h.pins[p].dpllRefs == g.pins[p].dpllRefs;
    }
  }

  lemma LinkedTables(g: Graph, p: nat, reg: Reg, ds: set<nat>)
    requires Inv(g) && p in g.pins && SlotsFree(g, p, ds)
    ensures forall d | d in g.devices :: DeviceTable(Linked(g, p, reg, ds), d)
    ensures forall q | q in g.pins :: PinTable(Linked(g, p, reg, ds), q) && ParentTable(Linked(g, p, reg, ds), q)
  {
    var h := Linked(g, p, reg, ds);
    forall d | d in h.devices ensures DeviceTable(h, d) {
      assert DeviceTable(g, d);
      BumpOk(Get(g.devices[d].pinRefs, g.pins[p].index), p, reg);
    }
    forall q | q in h.pins ensures PinTable(h, q) && ParentTable(h, q) {
      assert PinTable(g, q) && ParentTable(g, q);
      forall k | k in h.pins[q].dpllRefs ensures RefOk(h.pins[q].dpllRefs[k]) {
        BumpOk(Get(g.pins[q].dpllRefs, k), k, reg);
      }
    }
  }

  lemma LinkedMirror(g: Graph, p: nat, reg: Reg, ds: set<nat>, d: nat, q: nat)
    requires Inv(g) && p in g.pins && SlotsFree(g, p, ds) && d in g.devices && q in g.pins
    ensures DeviceHalf(Linked(g, p, reg, ds), d, q) == PinHalf(Linked(g, p, reg, ds), d, q)
  {
    assert DeviceHalf(g, d, q) == PinHalf(g, d, q);
    assert DeviceTable(g, d);
  }

  lemma LinkedKeepsInv(g: Graph, p: nat, reg: Reg, ds: set<nat>)
    requires Inv(g) && p in g.pins && SlotsFree(g, p, ds)
    ensures Inv(Linked(g, p, reg, ds))
  {
    var h := Linked(g, p, reg, ds);
    LinkedTables(g, p, reg, ds);
    forall d, q | d in h.devices && q in h.pins ensures DeviceHalf(h, d, q) == PinHalf(h, d, q) {
      LinkedMirror(g, p, reg, ds, d, q);
    }
    LinkedMarks(g, p, reg, ds);
    UniqueKept(g, h);
  }

  lemma UnlinkedTables(g: Graph, p: nat, reg: Reg, ds: set<nat>)
    requires Inv(g) && p in g.pins
    ensures forall d | d in g.devices :: DeviceTable(Unlinked(g, p, reg, ds), d)
    ensures forall q | q in g.pins :: PinTable(Unlinked(g, p, reg, ds), q) && ParentTable(Unlinked(g, p, reg, ds), q)
  {
    var h := Unlinked(g, p, reg, ds);
    forall d | d in h.devices ensures DeviceTable(h, d) {
      assert DeviceTable(g, d);
      if Holds(g.devices[d].pinRefs, g.pins[p].index, p) {
        DropOk(g.devices[d].pinRefs[g.pins[p].index], reg);
      }
    }
    forall q | q in h.pins ensures PinTable(h, q) && ParentTable(h, q) {
      assert PinTable(g, q) && ParentTable(g, q);
      forall k | k in h.pins[q].dpllRefs
        ensures RefOk(h.pins[q].dpllRefs[k]) && h.pins[q].dpllRefs[k].target == k && k in h.devices
      {
        DropOk(g.pins[q].dpllRefs[k], reg);
      }
    }
  }

  lemma HalvesAgree(g: Graph, d: nat, q: nat)
    requires Inv(g) && d in g.devices && q in g.pins
    ensures DeviceHalf(g, d, q) == PinHalf(g, d, q)
  {
  }

  lemma UnlinkedMirror(g: Graph, p: nat, reg: Reg, ds: set<nat>, d: nat, q: nat)
    requires Inv(g) && p in g.pins && d in g.devices && q in g.pins
    ensures DeviceHalf(Unlinked(g, p, reg, ds), d, q) == PinHalf(Unlinked(g, p, reg, ds), d, q)
  {
    hide RemoveFirst, Distinct, ParentTable, MarksExact, UniqueObjects, Mirrored;
    HalvesAgree(g, d, q);
    assert DeviceTable(g, d) && PinTable(g, p);
    if Holds(g.devices[d].pinRefs, g.pins[p].index, p) {
      DropOk(g.devices[d].pinRefs[g.pins[p].index], reg);
    }
    if d in g.pins[p].dpllRefs {
      DropOk(g.pins[p].dpllRefs[d], reg);
    }
  }

  lemma UnlinkedMarks(g: Graph, p: nat, reg: Reg, ds: set<nat>)
    requires MarksExact(g) && p in g.pins
    ensures MarksExact(Unlinked(g, p, reg, ds))
  {
  }

  lemma UnlinkedKeepsInv(g: Graph, p: nat, reg: Reg, ds: set<nat>)
    requires Inv(g) && p in g.pins
    ensures Inv(Unlinked(g, p, reg, ds))
  {
    var h := Unlinked(g, p, reg, ds);
    UnlinkedTables(g, p, reg, ds);
    forall d, q | d in h.devices && q in h.pins ensures DeviceHalf(h, d, q) == PinHalf(h, d, q) {
      UnlinkedMirror(g, p, reg, ds, d, q);
    }
    UnlinkedMarks(g, p, reg, ds);
    UniqueKept(g, h);
  }

  lemma LinkedComposes(g: Graph, p: nat, reg: Reg, ds: set<nat>, d: nat)
    requires p in g.pins && d !in ds && d in g.devices
    ensures Linked(Linked(g, p, reg, ds), p, reg, {d}) == Linked(g, p, reg, ds + {d})
  {
    var one, two := Linked(Linked(g, p, reg, ds), p, reg, {d}), Linked(g, p, reg, ds + {d});
    assert one.devices == two.devices;
    assert one.pins[p].dpllRefs == two.pins[p].dpllRefs;
    assert one.pins == two.pins;
  }

  lemma UnlinkedComposes(g: Graph, p: nat, reg: Reg, ds: set<nat>, d: nat)
    requires p in g.pins && d !in ds && d in g.devices
    ensures Unlinked(Unlinked(g, p, reg, ds), p, reg, {d}) == Unlinked(g, p, reg, ds + {d})
  {
    var one, two := Unlinked(Unlinked(g, p, reg, ds), p, reg, {d}), Unlinked(g, p, reg, ds + {d});
    assert one.devices == two.devices;
    assert one.pins[p].dpllRefs == two.pins[p].dpllRefs;
    assert one.pins == two.pins;
  }

  lemma NothingLinked(g: Graph, p: nat, reg: Reg)
    requires Inv(g) && p in g.pins
    ensures Linked(g, p, reg, {}) == g && Unlinked(g, p, reg, {}) == g
  {
    var one, two := Linked(g, p, reg, {}), Unlinked(g, p, reg, {});
    assert one.devices == g.devices == two.devices;
    assert one.pins[p].dpllRefs == g.pins[p].dpllRefs == two.pins[p].dpllRefs;
    assert one.pins == g.pins == two.pins;
  }

  /** On the pin's own table: registering on ds and then unregistering from the larger set es
      is the identity exactly when nothing in es listed the triple. */
  lemma UndoOnPin(refs: Refs, reg: Reg, ds: set<nat>, es: set<nat>)
    requires ds <= es && forall d | d in refs :: RefOk(refs[d])
    ensures RefsUnlinked(RefsLinked(refs, ds, reg), es, reg) == refs
       <==> forall d | d in es && d in refs :: reg !in refs[d].regs
  {
    var mid := RefsLinked(refs, ds, reg);
    var end := RefsUnlinked(mid, es, reg);
    forall d | d in es
      ensures Get(end, d) == Get(refs, d) <==> (d in refs ==> reg !in refs[d].regs)
    {
      if d in ds {
        DropUndoesBump(Get(refs, d), d, reg);
        assert mid[d] == Bump(Get(refs, d), d, reg);
      } else if d in refs {
        DropOk(refs[d], reg);
      }
    }
    if forall d | d in es && d in refs :: reg !in refs[d].regs {
      forall d ensures Get(end, d) == Get(refs, d) {
        if d in es {
        }
      }
      assert end.Keys == refs.Keys by {
        assert forall d :: d in end <==> Get(end, d).Some?;
        assert forall d :: d in refs <==> Get(refs, d).Some?;
      }
      forall d | d in refs ensures end[d] == refs[d] {
        assert Get(end, d) == Get(refs, d);
      }
    } else {
      var d :| d in es && d in refs && reg in refs[d].regs;
      assert Get(end, d) != Get(refs, d);
    }
  }

  lemma FreshUndone(g: Graph, p: nat, reg: Reg, ds: set<nat>, es: set<nat>)
    requires Inv(g) && p in g.pins && SlotsFree(g, p, ds) && ds <= es && FreshOn(g, p, reg, es)
    requires RefsUnlinked(RefsLinked(g.pins[p].dpllRefs, ds, reg), es, reg) == g.pins[p].dpllRefs
    ensures Unlinked(Linked(g, p, reg, ds), p, reg, es) == g
  {
    var u := Unlinked(Linked(g, p, reg, ds), p, reg, es);
    assert u.pins == g.pins;
    forall d | d in g.devices ensures u.devices[d] == g.devices[d] {
      if d in es {
        UndoOnDevice(g, d, p, reg, ds);
      }
    }
    assert u.devices == g.devices;
    assert u.pinMarks == g.pinMarks;
  }

  /** Registering on ds and then unregistering from es, a set with ds in it, restores the
      graph exactly when no device of es listed the triple before. */
  lemma UndoRestores(g: Graph, p: nat, reg: Reg, ds: set<nat>, es: set<nat>)
    requires Inv(g) && p in g.pins && SlotsFree(g, p, ds) && ds <= es
    ensures Unlinked(Linked(g, p, reg, ds), p, reg, es) == g <==> FreshOn(g, p, reg, es)
  {
    hide RefsLinked, RefsUnlinked;
    var u := Unlinked(Linked(g, p, reg, ds), p, reg, es);
    assert PinTable(g, p);
    UndoOnPin(g.pins[p].dpllRefs, reg, ds, es);
    assert u.pins[p].dpllRefs == RefsUnlinked(RefsLinked(g.pins[p].dpllRefs, ds, reg), es, reg);
    if FreshOn(g, p, reg, es) {
      FreshUndone(g, p, reg, ds, es);
    }
  }

  lemma UndoOnDevice(g: Graph, d: nat, p: nat, reg: Reg, ds: set<nat>)
    requires Inv(g) && p in g.pins && d in g.devices && SlotsFree(g, p, ds) && FreshOn(g, p, reg, {d})
    ensures DeviceUnlinked(Linked(g, p, reg, ds).devices[d], g.pins[p].index, p, reg) == g.devices[d]
  {
    var dev, key := g.devices[d], g.pins[p].index;
    assert DeviceTable(g, d) && DeviceHalf(g, d, p) == PinHalf(g, d, p);
    assert d in {d};
    if d in ds {
      DropUndoesBump(Get(dev.pinRefs, key), p, reg);
      var mid := DeviceLinked(dev, key, p, reg);
      assert Put(mid.pinRefs, key, Get(dev.pinRefs, key)) == dev.pinRefs;
    } else if Holds(dev.pinRefs, key, p) {
      assert Put(dev.pinRefs, key, Some(dev.pinRefs[key])) == dev.pinRefs;
    }
  }

  // ---- __dpll_pin_register / __dpll_pin_unregister ------------------------------

  function WithPinRefs(g: Graph, d: nat, refs: Refs): Graph
    requires d in g.devices
  {
    g.(devices := g.devices[d := g.devices[d].(pinRefs := refs)])
  }

  function WithDpllRefs(g: Graph, p: nat, refs: Refs): Graph
    requires p in g.pins
  {
    g.(pins := g.pins[p := g.pins[p].(dpllRefs := refs)])
  }

  /** Device side, then pin side; a failure on the pin side takes the device side back. */
  function RegisterPair(g: Graph, d: nat, p: nat, reg: Reg, a: PairAlloc): (Graph, Errno)
    requires d in g.devices && p in g.pins
  {
    var (refs, e) := Added(g.devices[d].pinRefs, g.pins[p].index, p, reg, a.onDevice);
    if e != Ok then (g, e) else
    var g1 := WithPinRefs(g, d, refs);
    var (refs', e') := Added(g.pins[p].dpllRefs, d, d, reg, a.onPin);
    if e' != Ok then (WithPinRefs(g1, d, Removed(refs, p, reg).0), e') else
    (WithDpllRefs(g1, p, refs').(pinMarks := g.pinMarks + {p}), Ok)
  }

  function UnregisterPair(g: Graph, d: nat, p: nat, reg: Reg): Graph
    requires d in g.devices && p in g.pins
  {
    var g1 := WithPinRefs(g, d, Removed(g.devices[d].pinRefs, p, reg).0);
    var g2 := WithDpllRefs(g1, p, Removed(g.pins[p].dpllRefs, d, reg).0);
    if g2.pins[p].dpllRefs == map[] then g2.(pinMarks := g2.pinMarks - {p}) else g2
  }

  lemma Slots(g: Graph, d: nat, p: nat)
    requires Inv(g) && d in g.devices && p in g.pins
    ensures Slotted(g.devices[d].pinRefs, p, g.pins[p].index)
    ensures Slotted(g.pins[p].dpllRefs, d, d)
    ensures d in g.pins[p].dpllRefs ==> g.pins[p].dpllRefs[d].target == d
  {
    assert DeviceTable(g, d) && PinTable(g, p);
  }

  lemma PairLinked(g: Graph, d: nat, p: nat, reg: Reg, a: PairAlloc)
    requires Inv(g) && d in g.devices && p in g.pins && RegisterPair(g, d, p, reg, a).1 == Ok
    ensures SlotsFree(g, p, {d}) && RegisterPair(g, d, p, reg, a).0 == Linked(g, p, reg, {d})
  {
    var key := g.pins[p].index;
    Slots(g, d, p);
    assert DeviceTable(g, d);
    AddedSlotted(g.devices[d].pinRefs, key, p, reg, a.onDevice);
    AddedSlotted(g.pins[p].dpllRefs, d, d, reg, a.onPin);
    var h := RegisterPair(g, d, p, reg, a).0;
    var l := Linked(g, p, reg, {d});
    assert h.pins[p].dpllRefs == l.pins[p].dpllRefs;
    assert h.devices == l.devices;
    assert h == l;
  }

  /** A pair registration either links the pair in both halves or changes nothing at all. */
  lemma RegisterPairAtomic(g: Graph, d: nat, p: nat, reg: Reg, a: PairAlloc)
    requires Inv(g) && d in g.devices && p in g.pins
    ensures RegisterPair(g, d, p, reg, a).1 == Ok ==>
      SlotsFree(g, p, {d}) && RegisterPair(g, d, p, reg, a).0 == Linked(g, p, reg, {d})
    ensures RegisterPair(g, d, p, reg, a).1 != Ok ==> RegisterPair(g, d, p, reg, a).0 == g
  {
    hide Linked;
    var key := g.pins[p].index;
    var (refs, e) := Added(g.devices[d].pinRefs, key, p, reg, a.onDevice);
    if RegisterPair(g, d, p, reg, a).1 == Ok {
      PairLinked(g, d, p, reg, a);
    } else if e == Ok {
      Slots(g, d, p);
      assert DeviceHalf(g, d, p) == PinHalf(g, d, p);
      assert DeviceTable(g, d);
      AddedSlotted(g.devices[d].pinRefs, key, p, reg, a.onDevice);
      AddedSlotted(g.pins[p].dpllRefs, d, d, reg, a.onPin);
      var prev := Get(g.devices[d].pinRefs, key);
      assert Slotted(refs, p, key);
      RemovedSlotted(refs, key, p, reg);
      DropUndoesBump(prev, p, reg);
      assert Put(refs, key, prev) == g.devices[d].pinRefs;
      assert RegisterPair(g, d, p, reg, a).0.devices == g.devices;
    }
  }

  /** When a pair registration succeeds, and how it fails: a listed triple needs nothing, a known pair two
      registration records; a new pair needs the pin's slot on the device and every allocation. */
  lemma RegisterPairOutcome(g: Graph, d: nat, p: nat, reg: Reg, a: PairAlloc)
    requires Inv(g) && d in g.devices && p in g.pins
    ensures RegisterPair(g, d, p, reg, a).1 ==
      var refs := g.pins[p].dpllRefs;
      if d in refs && reg in refs[d].regs then Ok
      else if d in refs then if a.onDevice.reg && a.onPin.reg then Ok else ENOMEM
      else if !a.onDevice.ref then ENOMEM
      else if g.pins[p].index in g.devices[d].pinRefs then EBUSY
      else if a.onDevice.slot && a.onDevice.reg && a.onPin.ref && a.onPin.slot && a.onPin.reg then Ok
      else ENOMEM
  {
    var key := g.pins[p].index;
    Slots(g, d, p);
    HalvesAgree(g, d, p);
    assert DeviceTable(g, d) && PinTable(g, p);
    LookupSlotted(g.devices[d].pinRefs, p, key);
    LookupSlotted(g.pins[p].dpllRefs, d, d);
  }

  const MEMORY: Alloc := Alloc(true, true, true)
  const PAIR_MEMORY: PairAlloc := PairAlloc(MEMORY, MEMORY)

  /** With memory to spare it succeeds exactly when the pin's slot on the device is free or its own. */
  lemma RegistersExactly(g: Graph, d: nat, p: nat, reg: Reg)
    requires Inv(g) && d in g.devices && p in g.pins
    ensures RegisterPair(g, d, p, reg, PAIR_MEMORY).1 == Ok <==> SlotsFree(g, p, {d})
    ensures RegisterPair(g, d, p, reg, PAIR_MEMORY).1 in {Ok, EBUSY}
  {
    RegisterPairOutcome(g, d, p, reg, PAIR_MEMORY);
    HalvesAgree(g, d, p);
    assert DeviceTable(g, d);
    assert d in {d};
  }

  lemma UnregisterPairMeaning(g: Graph, d: nat, p: nat, reg: Reg)
    requires Inv(g) && d in g.devices && p in g.pins
    ensures UnregisterPair(g, d, p, reg) == Unlinked(g, p, reg, {d})
  {
    var key := g.pins[p].index;
    Slots(g, d, p);
    RemovedSlotted(g.devices[d].pinRefs, key, p, reg);
    RemovedSlotted(g.pins[p].dpllRefs, d, d, reg);
    var h, u := UnregisterPair(g, d, p, reg), Unlinked(g, p, reg, {d});
    assert h.pins[p].dpllRefs == u.pins[p].dpllRefs;
    assert h.pins == u.pins;
    assert h.devices == u.devices;
  }

  /** Registering a pin on a device and unregistering it again restores the whole graph
      exactly when the triple was not registered before. */
  lemma PairRoundTrip(g: Graph, d: nat, p: nat, reg: Reg, a: PairAlloc)
    requires Inv(g) && d in g.devices && p in g.pins
    requires RegisterPair(g, d, p, reg, a).1 == Ok
    ensures UnregisterPair(RegisterPair(g, d, p, reg, a).0, d, p, reg) == g
       <==> (d in g.pins[p].dpllRefs ==> reg !in g.pins[p].dpllRefs[d].regs)
  {
    RegisterPairAtomic(g, d, p, reg, a);
    LinkedKeepsInv(g, p, reg, {d});
    UnregisterPairMeaning(Linked(g, p, reg, {d}), d, p, reg);
    UndoRestores(g, p, reg, {d}, {d});
    assert FreshOn(g, p, reg, {d}) <==> (d in g.pins[p].dpllRefs ==> reg !in g.pins[p].dpllRefs[d].regs);
  }

  // ---- registration through a parent pin -----------------------------------------

  function WithParent(g: Graph, p: nat, refs: Refs, delta: int): Graph
    requires p in g.pins
  {
    g.(pins := g.pins[p := g.pins[p].(parentRefs := refs, refcount := g.pins[p].refcount + delta)])
  }

  /** The triple recorded on the devices and the one recorded under the parent. */
  function ChildReg(ops: PinOps, priv: nat, parent: nat): Reg { Reg(ops, priv, PinCookie(parent)) }
  function ParentReg(ops: PinOps, priv: nat, p: nat): Reg { Reg(ops, priv, PinCookie(p)) }

  predicate OnPinOpsOk(ops: Option<PinOps>) {
    ops.Some? && ops.value.stateOnPinGet && ops.value.directionGet
  }

  /** The devices of the parent on which the registration would fail. */
  function FailingOn(g: Graph, parent: nat, p: nat, reg: Reg, env: nat -> PairAlloc): set<nat>
    requires parent in g.pins && p in g.pins
  {
    set d | d in g.pins[parent].dpllRefs && d in g.devices && RegisterPair(g, d, p, reg, env(d)).1 != Ok
  }

  /** dpll_pin_on_pin_register: on every device of the parent, in ascending order; the first
      failing device stops the walk and everything done before it is undone. */
  function OnPinRegister(g: Graph, parent: nat, p: nat, ops: Option<PinOps>, priv: nat,
                         a: Alloc, env: nat -> PairAlloc): (Graph, Errno)
    requires parent in g.pins && p in g.pins
  {
    if !g.pins[parent].mux || !OnPinOpsOk(ops) then (g, EINVAL) else
    var preg, reg := ParentReg(ops.value, priv, p), ChildReg(ops.value, priv, parent);
    var (prefs, e) := Added(g.pins[p].parentRefs, g.pins[parent].index, parent, preg, a);
    if e != Ok then (g, e) else
    var g1 := WithParent(g, p, prefs, 1);
    var ids := g.pins[parent].dpllRefs.Keys;
    match Next(FailingOn(g1, parent, p, reg, env), 0)
    case None => (Linked(g1, p, reg, ids), Ok)
    case Some(stop) =>
      var done := Below(ids, stop);
      var g2 := Unlinked(Linked(g1, p, reg, done), p, reg, done);
      (WithParent(g2, p, Removed(g2.pins[p].parentRefs, parent, preg).0, -1),
       RegisterPair(g1, stop, p, reg, env(stop)).1)
  }

  /** dpll_pin_on_pin_unregister sweeps every device of the pin, not only the parent's. */
  function OnPinUnregister(g: Graph, parent: nat, p: nat, ops: PinOps, priv: nat): Graph
    requires parent in g.pins && p in g.pins
  {
    var g1 := WithParent(g, p, Removed(g.pins[p].parentRefs, parent, ParentReg(ops, priv, p)).0, -1);
    Unlinked(g1, p, ChildReg(ops, priv, parent), g1.pins[p].dpllRefs.Keys)
  }

  /** The parent does not list the triple. */
  predicate FreshUnder(g: Graph, parent: nat, p: nat, preg: Reg)
    requires parent in g.pins && p in g.pins
  {
    var refs, key := g.pins[p].parentRefs, g.pins[parent].index;
    key in refs && refs[key].target == parent ==> preg !in refs[key].regs
  }

  /** Changing p's parent table and count leaves both halves of the device links alone. */
  lemma ParentKeepsInv(g: Graph, p: nat, refs: Refs, delta: int)
    requires Inv(g) && p in g.pins
    requires forall k | k in refs :: refs[k].target in g.pins && g.pins[refs[k].target].index == k && RefOk(refs[k])
    ensures Inv(WithParent(g, p, refs, delta))
  {
    var h := WithParent(g, p, refs, delta);
    forall d | d in h.devices ensures DeviceTable(h, d) {
      assert DeviceTable(g, d);
    }
    forall q | q in h.pins ensures PinTable(h, q) && ParentTable(h, q) {
      assert PinTable(g, q) && ParentTable(g, q);
    }
    forall d, q | d in h.devices && q in h.pins ensures DeviceHalf(h, d, q) == PinHalf(h, d, q) {
      assert DeviceHalf(g, d, q) == PinHalf(g, d, q);
    }
    UniqueKept(g, h);
  }

  lemma ParentSlot(g: Graph, parent: nat, p: nat)
    requires Inv(g) && p in g.pins && parent in g.pins
    ensures Slotted(g.pins[p].parentRefs, parent, g.pins[parent].index)
  {
    assert ParentTable(g, p);
  }

  lemma ParentAdded(g: Graph, parent: nat, p: nat, preg: Reg, a: Alloc)
    requires Inv(g) && p in g.pins && parent in g.pins
    requires Added(g.pins[p].parentRefs, g.pins[parent].index, parent, preg, a).1 == Ok
    ensures Inv(WithParent(g, p, Added(g.pins[p].parentRefs, g.pins[parent].index, parent, preg, a).0, 1))
  {
    var refs, key := g.pins[p].parentRefs, g.pins[parent].index;
    ParentSlot(g, parent, p);
    AddedSlotted(refs, key, parent, preg, a);
    assert ParentTable(g, p);
    BumpOk(Get(refs, key), parent, preg);
    ParentKeepsInv(g, p, Added(refs, key, parent, preg, a).0, 1);
  }

  lemma ParentRemoved(g: Graph, parent: nat, p: nat, preg: Reg)
    requires Inv(g) && p in g.pins && parent in g.pins
    ensures Inv(WithParent(g, p, Removed(g.pins[p].parentRefs, parent, preg).0, -1))
  {
    var refs, key := g.pins[p].parentRefs, g.pins[parent].index;
    ParentSlot(g, parent, p);
    RemovedSlotted(refs, key, parent, preg);
    assert ParentTable(g, p);
    if Holds(refs, key, parent) {
      DropOk(refs[key], preg);
    }
    ParentKeepsInv(g, p, Removed(refs, parent, preg).0, -1);
  }

  /** Adding under a parent and removing again gives back the parent table exactly when the
      triple was fresh there. */
  lemma ParentRoundTrip(g: Graph, parent: nat, p: nat, preg: Reg, a: Alloc)
    requires Inv(g) && p in g.pins && parent in g.pins
    requires Added(g.pins[p].parentRefs, g.pins[parent].index, parent, preg, a).1 == Ok
    ensures var prefs := Added(g.pins[p].parentRefs, g.pins[parent].index, parent, preg, a).0;
      Removed(prefs, parent, preg).0 == g.pins[p].parentRefs <==> FreshUnder(g, parent, p, preg)
  {
    var refs, key := g.pins[p].parentRefs, g.pins[parent].index;
    ParentSlot(g, parent, p);
    AddedSlotted(refs, key, parent, preg, a);
    var refs' := Added(refs, key, parent, preg, a).0;
    assert Slotted(refs', parent, key);
    RemovedSlotted(refs', key, parent, preg);
    assert ParentTable(g, p);
    DropUndoesBump(Get(refs, key), parent, preg);
    var back := Removed(refs', parent, preg).0;
    assert Get(back, key) == Drop(refs'[key], preg);
    if FreshUnder(g, parent, p, preg) {
      assert back == Put(refs', key, Get(refs, key)) == refs;
    }
  }

  /** The walk over the parent's devices is reached and stops at device stop. */
  predicate OnPinStopsAt(g: Graph, parent: nat, p: nat, ops: Option<PinOps>, priv: nat,
                         a: Alloc, env: nat -> PairAlloc, stop: nat)
    requires parent in g.pins && p in g.pins
  {
    && g.pins[parent].mux && OnPinOpsOk(ops)
    && var preg, reg := ParentReg(ops.value, priv, p), ChildReg(ops.value, priv, parent);
       var (prefs, e) := Added(g.pins[p].parentRefs, g.pins[parent].index, parent, preg, a);
       e == Ok && Next(FailingOn(WithParent(g, p, prefs, 1), parent, p, reg, env), 0) == Some(stop)
  }

  /** Devices on which the registration does not fail have a free slot for the pin. */
  lemma NotFailingSlots(g: Graph, parent: nat, p: nat, reg: Reg, env: nat -> PairAlloc, ds: set<nat>)
    requires Inv(g) && parent in g.pins && p in g.pins
    requires ds <= g.pins[parent].dpllRefs.Keys && ds !! FailingOn(g, parent, p, reg, env)
    ensures SlotsFree(g, p, ds)
  {
    assert PinTable(g, parent);
    forall d | d in ds
      ensures d in g.devices
      ensures g.pins[p].index in g.devices[d].pinRefs ==> g.devices[d].pinRefs[g.pins[p].index].target == p
    {
      assert d in g.pins[parent].dpllRefs;
      assert d !in FailingOn(g, parent, p, reg, env);
      RegisterPairAtomic(g, d, p, reg, env(d));
      assert SlotsFree(g, p, {d});
      assert d in {d};
    }
  }

  /** The undo common to a failed walk and to a later unregistration. */
  lemma UndoUnderParent(g: Graph, p: nat, prefs: Refs, back: Refs, reg: Reg, ds: set<nat>, es: set<nat>)
    requires p in g.pins && PinTable(g, p) && Inv(WithParent(g, p, prefs, 1))
    requires SlotsFree(WithParent(g, p, prefs, 1), p, ds) && ds <= es
    ensures WithParent(Unlinked(Linked(WithParent(g, p, prefs, 1), p, reg, ds), p, reg, es), p, back, -1) == g
      <==> (back == g.pins[p].parentRefs && FreshOn(g, p, reg, es))
  {
    var g1 := WithParent(g, p, prefs, 1);
    var g2 := Unlinked(Linked(g1, p, reg, ds), p, reg, es);
    var h := WithParent(g2, p, back, -1);
    UndoRestores(g1, p, reg, ds, es);
    assert FreshOn(g1, p, reg, es) <==> FreshOn(g, p, reg, es);
    UndoOnPin(g.pins[p].dpllRefs, reg, ds, es);
    assert h.pins[p].dpllRefs == g2.pins[p].dpllRefs == RefsUnlinked(RefsLinked(g.pins[p].dpllRefs, ds, reg), es, reg);
    assert h.pins[p].parentRefs == back;
    if back == g.pins[p].parentRefs && FreshOn(g, p, reg, es) {
      assert h.pins == g.pins;
    }
  }

  /** When the walk stops at a device, the whole call leaves the graph untouched exactly when
      neither the parent nor any device visited before already listed its triple. */
  lemma OnPinUndoExact(g: Graph, parent: nat, p: nat, ops: Option<PinOps>, priv: nat,
                       a: Alloc, env: nat -> PairAlloc, stop: nat)
    requires Inv(g) && parent in g.pins && p in g.pins
    requires OnPinStopsAt(g, parent, p, ops, priv, a, env, stop)
    ensures Inv(OnPinRegister(g, parent, p, ops, priv, a, env).0)
    ensures OnPinRegister(g, parent, p, ops, priv, a, env).1 != Ok
    ensures OnPinRegister(g, parent, p, ops, priv, a, env).0 == g
      <==> (FreshUnder(g, parent, p, ParentReg(ops.value, priv, p)) &&
            FreshOn(g, p, ChildReg(ops.value, priv, parent), Below(g.pins[parent].dpllRefs.Keys, stop)))
  {
    var preg, reg := ParentReg(ops.value, priv, p), ChildReg(ops.value, priv, parent);
    var prefs := Added(g.pins[p].parentRefs, g.pins[parent].index, parent, preg, a).0;
    var g1 := WithParent(g, p, prefs, 1);
    var done := Below(g.pins[parent].dpllRefs.Keys, stop);
    ParentAdded(g, parent, p, preg, a);
    NotFailingSlots(g1, parent, p, reg, env, done);
    LinkedKeepsInv(g1, p, reg, done);
    UnlinkedKeepsInv(Linked(g1, p, reg, done), p, reg, done);
    var g2 := Unlinked(Linked(g1, p, reg, done), p, reg, done);
    assert g2.pins[p].parentRefs == prefs;
    ParentRemoved(g2, parent, p, preg);
    ParentRoundTrip(g, parent, p, preg, a);
    assert PinTable(g, p);
    UndoUnderParent(g, p, prefs, Removed(prefs, parent, preg).0, reg, done, done);
  }

  /** dpll_pin_on_pin_register of a triple not registered before, when it fails anywhere,
      leaves the graph exactly as it was. */
  lemma OnPinFailureRestores(g: Graph, parent: nat, p: nat, ops: PinOps, priv: nat, a: Alloc, env: nat -> PairAlloc)
    requires Inv(g) && parent in g.pins && p in g.pins
    requires FreshUnder(g, parent, p, ParentReg(ops, priv, p))
    requires FreshOn(g, p, ChildReg(ops, priv, parent), g.pins[parent].dpllRefs.Keys)
    requires OnPinRegister(g, parent, p, Some(ops), priv, a, env).1 != Ok
    ensures OnPinRegister(g, parent, p, Some(ops), priv, a, env).0 == g
  {
    if stop: nat :| OnPinStopsAt(g, parent, p, Some(ops), priv, a, env, stop) {
      OnPinUndoExact(g, parent, p, Some(ops), priv, a, env, stop);
    } else if g.pins[parent].mux && OnPinOpsOk(Some(ops)) {
      var preg, reg := ParentReg(ops, priv, p), ChildReg(ops, priv, parent);
      var (prefs, e) := Added(g.pins[p].parentRefs, g.pins[parent].index, parent, preg, a);
      if e == Ok {
        var n := Next(FailingOn(WithParent(g, p, prefs, 1), parent, p, reg, env), 0);
        assert n.Some? ==> OnPinStopsAt(g, parent, p, Some(ops), priv, a, env, n.value);
      }
    }
  }

  lemma LinkedHalf(g: Graph, p: nat, reg: Reg, ds: set<nat>, d: nat, q: nat)
    requires p in g.pins && q in g.pins && FreshOn(g, p, reg, ds)
    ensures var h := Linked(g, p, reg, ds);
      q in h.pins && h.devices.Keys == g.devices.Keys
      && PinHalf(h, d, q) == if q == p && d in ds then Some(Extended(PinHalf(g, d, q), reg)) else PinHalf(g, d, q)
  {
  }

  lemma OnPinSuccessIs(g: Graph, parent: nat, p: nat, ops: PinOps, priv: nat, a: Alloc, env: nat -> PairAlloc)
    requires parent in g.pins && p in g.pins && OnPinRegister(g, parent, p, Some(ops), priv, a, env).1 == Ok
    ensures var prefs := Added(g.pins[p].parentRefs, g.pins[parent].index, parent, ParentReg(ops, priv, p), a).0;
      OnPinRegister(g, parent, p, Some(ops), priv, a, env).0
      == Linked(WithParent(g, p, prefs, 1), p, ChildReg(ops, priv, parent), g.pins[parent].dpllRefs.Keys)
  {
  }

  /** When it succeeds, exactly the devices of the parent gain the triple, each at the end of
      its list, and no other link changes. */
  lemma OnPinSuccessLinks(g: Graph, parent: nat, p: nat, ops: PinOps, priv: nat, a: Alloc,
    env: nat -> PairAlloc, d: nat, q: nat)
    requires Inv(g) && parent in g.pins && p in g.pins && d in g.devices && q in g.pins
    requires FreshOn(g, p, ChildReg(ops, priv, parent), g.pins[parent].dpllRefs.Keys)
    requires OnPinRegister(g, parent, p, Some(ops), priv, a, env).1 == Ok
    ensures var h := OnPinRegister(g, parent, p, Some(ops), priv, a, env).0;
      d in h.devices && q in h.pins && DeviceHalf(h, d, q) == PinHalf(h, d, q) ==
        if q == p && d in g.pins[parent].dpllRefs
        then Some(Extended(PinHalf(g, d, q), ChildReg(ops, priv, parent)))
        else PinHalf(g, d, q)
  {
    hide Linked, Added, OnPinRegister;
    var prefs := Added(g.pins[p].parentRefs, g.pins[parent].index, parent, ParentReg(ops, priv, p), a).0;
    OnPinSuccessIs(g, parent, p, ops, priv, a, env);
    LinkedHalf(WithParent(g, p, prefs, 1), p, ChildReg(ops, priv, parent), g.pins[parent].dpllRefs.Keys, d, q);
    OnPinKeepsInv(g, parent, p, Some(ops), priv, a, env);
    var h := OnPinRegister(g, parent, p, Some(ops), priv, a, env).0;
    assert DeviceHalf(h, d, q) == PinHalf(h, d, q);
  }

  /** A link with one more triple at the end of its list. */
  function Extended(l: Option<Link>, reg: Reg): Link {
    match l
    case None => Link([reg], 1)
    case Some(v) => Link(v.regs + [reg], v.refcount + 1)
  }

  lemma OnPinKeepsInv(g: Graph, parent: nat, p: nat, ops: Option<PinOps>, priv: nat,
                      a: Alloc, env: nat -> PairAlloc)
    requires Inv(g) && parent in g.pins && p in g.pins
    ensures Inv(OnPinRegister(g, parent, p, ops, priv, a, env).0)
  {
    if g.pins[parent].mux && OnPinOpsOk(ops) {
      var preg, reg := ParentReg(ops.value, priv, p), ChildReg(ops.value, priv, parent);
      var (prefs, e) := Added(g.pins[p].parentRefs, g.pins[parent].index, parent, preg, a);
      if e == Ok {
        ParentAdded(g, parent, p, preg, a);
        var g1 := WithParent(g, p, prefs, 1);
        var n := Next(FailingOn(g1, parent, p, reg, env), 0);
        if n.Some? {
          OnPinUndoExact(g, parent, p, ops, priv, a, env, n.value);
        } else {
          NotFailingSlots(g1, parent, p, reg, env, g.pins[parent].dpllRefs.Keys);
          LinkedKeepsInv(g1, p, reg, g.pins[parent].dpllRefs.Keys);
        }
      }
    }
  }

  lemma OnPinUnregisterKeepsInv(g: Graph, parent: nat, p: nat, ops: PinOps, priv: nat)
    requires Inv(g) && parent in g.pins && p in g.pins
    ensures Inv(OnPinUnregister(g, parent, p, ops, priv))
  {
    ParentRemoved(g, parent, p, ParentReg(ops, priv, p));
    var g1 := WithParent(g, p, Removed(g.pins[p].parentRefs, parent, ParentReg(ops, priv, p)).0, -1);
    UnlinkedKeepsInv(g1, p, ChildReg(ops, priv, parent), g1.pins[p].dpllRefs.Keys);
  }

  /** A successful registration under a parent followed by its unregistration restores the
      graph exactly when the triple was listed neither under the parent nor on any device of
      the pin or of the parent: the unregistration sweeps all devices of the pin. */
  lemma OnPinRoundTrip(g: Graph, parent: nat, p: nat, ops: PinOps, priv: nat, a: Alloc, env: nat -> PairAlloc)
    requires Inv(g) && parent in g.pins && p in g.pins
    requires OnPinRegister(g, parent, p, Some(ops), priv, a, env).1 == Ok
    ensures OnPinUnregister(OnPinRegister(g, parent, p, Some(ops), priv, a, env).0, parent, p, ops, priv) == g
      <==> (FreshUnder(g, parent, p, ParentReg(ops, priv, p)) &&
            FreshOn(g, p, ChildReg(ops, priv, parent), g.pins[p].dpllRefs.Keys))
  {
    var preg, reg := ParentReg(ops, priv, p), ChildReg(ops, priv, parent);
    var prefs := Added(g.pins[p].parentRefs, g.pins[parent].index, parent, preg, a).0;
    var g1 := WithParent(g, p, prefs, 1);
    var ids := g.pins[parent].dpllRefs.Keys;
    var all := ids + g.pins[p].dpllRefs.Keys;
    ParentAdded(g, parent, p, preg, a);
    NotFailingSlots(g1, parent, p, reg, env, ids);
    var h := Linked(g1, p, reg, ids);
    assert h.pins[p].dpllRefs.Keys == all;
    assert h.pins[p].parentRefs == prefs;
    var back := Removed(prefs, parent, preg).0;
    ParentRoundTrip(g, parent, p, preg, a);
    assert PinTable(g, p);
    SwapParent(h, p, reg, all, back, -1);
    UndoUnderParent(g, p, prefs, back, reg, ids, all);
    assert FreshOn(g, p, reg, all) <==> FreshOn(g, p, reg, g.pins[p].dpllRefs.Keys);
  }

  /** When a registration through a parent succeeds: a MUX parent, the callbacks, an entry in the pin's
      parent table, and every device of the parent. */
  lemma OnPinOutcome(g: Graph, parent: nat, p: nat, ops: Option<PinOps>, priv: nat, a: Alloc, env: nat -> PairAlloc)
    requires Inv(g) && parent in g.pins && p in g.pins
    ensures OnPinRegister(g, parent, p, ops, priv, a, env).1 == Ok <==>
      && g.pins[parent].mux && ops.Some? && ops.value.stateOnPinGet && ops.value.directionGet
      && Added(g.pins[p].parentRefs, g.pins[parent].index, parent, Reg(ops.value, priv, PinCookie(p)), a).1 == Ok
      && forall d | d in g.pins[parent].dpllRefs ::
           d in g.devices && RegisterPair(g, d, p, Reg(ops.value, priv, PinCookie(parent)), env(d)).1 == Ok
    ensures !(g.pins[parent].mux && ops.Some? && ops.value.stateOnPinGet && ops.value.directionGet) ==>
      OnPinRegister(g, parent, p, ops, priv, a, env) == (g, EINVAL)
  {
    if g.pins[parent].mux && OnPinOpsOk(ops) {
      var preg, reg := ParentReg(ops.value, priv, p), ChildReg(ops.value, priv, parent);
      var (prefs, e) := Added(g.pins[p].parentRefs, g.pins[parent].index, parent, preg, a);
      if e == Ok {
        var g1 := WithParent(g, p, prefs, 1);
        ParentAdded(g, parent, p, preg, a);
        var failing := FailingOn(g1, parent, p, reg, env);
        assert IsNext(failing, 0, Next(failing, 0));
        assert PinTable(g, parent);
        forall d | d in g.pins[parent].dpllRefs
          ensures d in g.devices && RegisterPair(g1, d, p, reg, env(d)).1 == RegisterPair(g, d, p, reg, env(d)).1
          ensures d in failing <==> RegisterPair(g, d, p, reg, env(d)).1 != Ok
        {
          RegisterPairOutcome(g, d, p, reg, env(d));
          RegisterPairOutcome(g1, d, p, reg, env(d));
        }
        if Next(failing, 0).Some? {
          assert RegisterPair(g1, Next(failing, 0).value, p, reg, env(Next(failing, 0).value)).1 != Ok;
        }
      }
    }
  }

  /** With memory to spare it succeeds exactly when the parent's slot in the pin's table and the pin's slot
      on every device of the parent are free or their own. */
  lemma OnPinSucceedsExactly(g: Graph, parent: nat, p: nat, ops: PinOps, priv: nat)
    requires Inv(g) && parent in g.pins && p in g.pins
    requires g.pins[parent].mux && ops.stateOnPinGet && ops.directionGet
    ensures OnPinRegister(g, parent, p, Some(ops), priv, MEMORY, _ => PAIR_MEMORY).1 == Ok <==>
      && (var key := g.pins[parent].index;
          key in g.pins[p].parentRefs ==> g.pins[p].parentRefs[key].target == parent)
      && SlotsFree(g, p, g.pins[parent].dpllRefs.Keys)
  {
    var reg := Reg(ops, priv, PinCookie(parent));
    OnPinOutcome(g, parent, p, Some(ops), priv, MEMORY, _ => PAIR_MEMORY);
    ParentSlot(g, parent, p);
    LookupSlotted(g.pins[p].parentRefs, parent, g.pins[parent].index);
    assert PinTable(g, parent);
    forall d | d in g.pins[parent].dpllRefs
      ensures d in g.devices && (RegisterPair(g, d, p, reg, PAIR_MEMORY).1 == Ok <==> SlotsFree(g, p, {d}))
    {
      RegistersExactly(g, d, p, reg);
    }
    assert SlotsFree(g, p, g.pins[parent].dpllRefs.Keys) <==> forall d | d in g.pins[parent].dpllRefs ::
      SlotsFree(g, p, {d}) by {
      forall d | d in g.pins[parent].dpllRefs && SlotsFree(g, p, {d})
        ensures g.pins[p].index in g.devices[d].pinRefs ==> g.devices[d].pinRefs[g.pins[p].index].target == p
      {
        assert d in {d};
      }
    }
  }

  /** What a success adds besides the links: a reference to the parent with the pin as cookie, and a hold
      on the pin. */
  lemma OnPinRecords(g: Graph, parent: nat, p: nat, ops: PinOps, priv: nat, a: Alloc, env: nat -> PairAlloc)
    requires Inv(g) && parent in g.pins && p in g.pins
    requires OnPinRegister(g, parent, p, Some(ops), priv, a, env).1 == Ok
    requires FreshUnder(g, parent, p, Reg(ops, priv, PinCookie(p)))
    ensures var h, key := OnPinRegister(g, parent, p, Some(ops), priv, a, env).0, g.pins[parent].index;
      && p in h.pins && h.pins[p].refcount == g.pins[p].refcount + 1
      && h.pins[p].parentRefs == g.pins[p].parentRefs[key :=
           match Get(g.pins[p].parentRefs, key)
           case None => Ref(parent, [Reg(ops, priv, PinCookie(p))], 1)
           case Some(r) => Ref(parent, r.regs + [Reg(ops, priv, PinCookie(p))], r.refcount + 1)]
  {
    ParentSlot(g, parent, p);
    AddedSlotted(g.pins[p].parentRefs, g.pins[parent].index, parent, Reg(ops, priv, PinCookie(p)), a);
  }

  lemma SwapParent(g: Graph, p: nat, reg: Reg, ds: set<nat>, refs: Refs, delta: int)
    requires p in g.pins
    ensures Unlinked(WithParent(g, p, refs, delta), p, reg, ds) == WithParent(Unlinked(g, p, reg, ds), p, refs, delta)
  {
    var one, two := Unlinked(WithParent(g, p, refs, delta), p, reg, ds),
      WithParent(Unlinked(g, p, reg, ds), p, refs, delta);
    assert one.pins == two.pins;
    assert one.devices == two.devices;
  }

  // ---- the walks, one device at a time -----------------------------------------------

  /** What the outcome of an add depends on. */
  lemma AddedSame(refs: Refs, refs': Refs, key: nat, target: nat, reg: Reg, a: Alloc)
    requires Slotted(refs, target, key) && Slotted(refs', target, key) && Get(refs, key) == Get(refs', key)
    ensures Added(refs, key, target, reg, a).1 == Added(refs', key, target, reg, a).1
  {
    LookupSlotted(refs, target, key);
    LookupSlotted(refs', target, key);
  }

  /** One more device of the walk: earlier devices do not change its outcome. */
  lemma NextPair(g: Graph, p: nat, reg: Reg, a: PairAlloc, ids: set<nat>, lo: nat, i: nat)
    requires Inv(g) && p in g.pins && i in g.devices && Next(ids, lo) == Some(i)
    requires Inv(Linked(g, p, reg, Below(ids, lo)))
    ensures RegisterPair(Linked(g, p, reg, Below(ids, lo)), i, p, reg, a).1 == RegisterPair(g, i, p, reg, a).1
    ensures RegisterPair(g, i, p, reg, a).1 == Ok ==>
      && RegisterPair(Linked(g, p, reg, Below(ids, lo)), i, p, reg, a).0 == Linked(g, p, reg, Below(ids, i + 1))
      && Inv(Linked(g, p, reg, Below(ids, i + 1)))
    ensures RegisterPair(g, i, p, reg, a).1 != Ok ==>
      RegisterPair(Linked(g, p, reg, Below(ids, lo)), i, p, reg, a).0 == Linked(g, p, reg, Below(ids, lo))
  {
    var h := Linked(g, p, reg, Below(ids, lo));
    WalkStep(ids, lo, i);
    Slots(g, i, p);
    Slots(h, i, p);
    AddedSame(g.pins[p].dpllRefs, h.pins[p].dpllRefs, i, i, reg, a.onPin);
    RegisterPairAtomic(h, i, p, reg, a);
    if RegisterPair(h, i, p, reg, a).1 == Ok {
      LinkedComposes(g, p, reg, Below(ids, lo), i);
      LinkedKeepsInv(h, p, reg, {i});
    }
  }

  /** One more device of an undo or sweep. */
  lemma NextUnpair(g: Graph, p: nat, reg: Reg, ids: set<nat>, lo: nat, i: nat)
    requires p in g.pins && i in g.devices && Next(ids, lo) == Some(i)
    requires Inv(Unlinked(g, p, reg, Below(ids, lo)))
    ensures UnregisterPair(Unlinked(g, p, reg, Below(ids, lo)), i, p, reg) == Unlinked(g, p, reg, Below(ids, i + 1))
    ensures Inv(Unlinked(g, p, reg, Below(ids, i + 1)))
  {
    var h := Unlinked(g, p, reg, Below(ids, lo));
    WalkStep(ids, lo, i);
    UnregisterPairMeaning(h, i, p, reg);
    UnlinkedComposes(g, p, reg, Below(ids, lo), i);
    UnlinkedKeepsInv(h, p, reg, {i});
  }

  /** The walk never changes which devices the parent has, even when the pin is its own parent. */
  lemma ParentKeysStay(g: Graph, parent: nat, p: nat, reg: Reg, done: set<nat>, undone: set<nat>)
    requires Inv(g) && parent in g.pins && p in g.pins
    requires undone <= done <= g.pins[parent].dpllRefs.Keys
    ensures Linked(g, p, reg, done).pins[parent].dpllRefs.Keys == g.pins[parent].dpllRefs.Keys
    ensures Unlinked(Linked(g, p, reg, done), p, reg, undone).pins[parent].dpllRefs.Keys == g.pins[parent].dpllRefs.Keys
  {
    assert PinTable(g, p);
  }

  // ---- objects: get, put, device registration --------------------------------------

  /** A device ops table: identity, and whether both mandatory callbacks are there. */
  datatype DeviceOps = DeviceOps(id: nat, modeGet: bool, lockStatusGet: bool)

  function FindDevice(g: Graph, clockId: nat, index: nat, owner: nat): Option<nat> {
    Next(set d | d in g.devices && SameDevice(g.devices[d], clockId, index, owner), 0)
  }

  function FindPin(g: Graph, clockId: nat, index: nat, owner: nat): Option<nat> {
    Next(set p | p in g.pins && SamePin(g.pins[p], clockId, index, owner), 0)
  }

  /** id is the index the allocator hands out, None when allocation fails. */
  function DeviceGet(g: Graph, clockId: nat, index: nat, owner: nat, id: Option<nat>): Graph {
    match FindDevice(g, clockId, index, owner)
    case Some(d) => g.(devices := g.devices[d := g.devices[d].(refcount := g.devices[d].refcount + 1)])
    case None =>
      if id.None? then g else g.(devices := g.devices[id.value := Device(clockId, index, owner, map[], 1, [])])
  }

  function DevicePut(g: Graph, d: nat): Graph
    requires d in g.devices
  {
    if g.devices[d].refcount <= 1 then g.(devices := g.devices - {d}, deviceMarks := g.deviceMarks - {d})
    else g.(devices := g.devices[d := g.devices[d].(refcount := g.devices[d].refcount - 1)])
  }

  function PinGet(g: Graph, clockId: nat, index: nat, owner: nat, mux: bool, id: Option<nat>): Graph {
    match FindPin(g, clockId, index, owner)
    case Some(p) => g.(pins := g.pins[p := g.pins[p].(refcount := g.pins[p].refcount + 1)])
    case None =>
      if id.None? then g else g.(pins := g.pins[id.value := Pin(clockId, index, owner, mux, map[], map[], 1)])
  }

  function PinPut(g: Graph, p: nat): Graph
    requires p in g.pins
  {
    if g.pins[p].refcount == 1 then g.(pins := g.pins - {p}, pinMarks := g.pinMarks - {p})
    else g.(pins := g.pins[p := g.pins[p].(refcount := g.pins[p].refcount - 1)])
  }

  function DeviceRegister(g: Graph, d: nat, ops: Option<DeviceOps>, typeOk: bool, priv: nat,
    alloc: bool): (Graph, Errno)
    requires d in g.devices
  {
    if ops.None? || !ops.value.modeGet || !ops.value.lockStatusGet || !typeOk then (g, EINVAL) else
    var reg := DevReg(ops.value.id, priv);
    var dev := g.devices[d];
    if reg in dev.regs then (g, EEXIST)
    else if !alloc then (g, ENOMEM)
    else (g.(devices := g.devices[d := dev.(regs := dev.regs + [reg])],
             deviceMarks := if dev.regs == [] then g.deviceMarks + {d} else g.deviceMarks), Ok)
  }

  function DeviceUnregister(g: Graph, d: nat, ops: nat, priv: nat): Graph
    requires d in g.devices
  {
    var reg := DevReg(ops, priv);
    var dev := g.devices[d];
    if reg !in dev.regs then g else
    var regs := RemoveFirst(dev.regs, reg);
    g.(devices := g.devices[d := dev.(regs := regs)],
       deviceMarks := if regs == [] then g.deviceMarks - {d} else g.deviceMarks)
  }

  function PinRegister(g: Graph, d: nat, p: nat, ops: Option<PinOps>, priv: nat, a: PairAlloc): (Graph, Errno)
    requires d in g.devices && p in g.pins
  {
    if ops.None? || !ops.value.stateOnDpllGet || !ops.value.directionGet then (g, EINVAL)
    else if g.devices[d].owner != g.pins[p].owner || g.devices[d].clockId != g.pins[p].clockId then (g, EINVAL)
    else RegisterPair(g, d, p, Reg(ops.value, priv, NoCookie), a)
  }

  function PinUnregister(g: Graph, d: nat, p: nat, ops: PinOps, priv: nat): Graph
    requires d in g.devices && p in g.pins
  {
    if g.devices[d].pinRefs == map[] || g.pins[p].parentRefs != map[] then g
    else UnregisterPair(g, d, p, Reg(ops, priv, NoCookie))
  }

  // ---- what the object operations do, spelled out ----------------------------------------

  predicate PinChecks(g: Graph, d: nat, p: nat, ops: Option<PinOps>)
    requires d in g.devices && p in g.pins
  {
    ops.Some? && ops.value.stateOnDpllGet && ops.value.directionGet
    && g.devices[d].owner == g.pins[p].owner && g.devices[d].clockId == g.pins[p].clockId
  }

  /** A pin is refused for missing callbacks or a foreign device, and is otherwise registered, with memory
      to spare, exactly when its slot is free or its own. */
  lemma PinRegisterOutcome(g: Graph, d: nat, p: nat, ops: Option<PinOps>, priv: nat)
    requires Inv(g) && d in g.devices && p in g.pins
    ensures !PinChecks(g, d, p, ops) ==> forall a :: PinRegister(g, d, p, ops, priv, a) == (g, EINVAL)
    ensures PinChecks(g, d, p, ops) ==>
      (PinRegister(g, d, p, ops, priv, PAIR_MEMORY).1 == Ok <==> SlotsFree(g, p, {d}))
  {
    if PinChecks(g, d, p, ops) {
      RegistersExactly(g, d, p, Reg(ops.value, priv, NoCookie));
    }
  }

  /** A registered pin lists its triple on the device; unregistering it restores the graph exactly when the
      triple was fresh and the pin has no parents, for then the unregistration is not refused. */
  lemma PinRoundTrip(g: Graph, d: nat, p: nat, ops: PinOps, priv: nat, a: PairAlloc)
    requires Inv(g) && d in g.devices && p in g.pins && PinRegister(g, d, p, Some(ops), priv, a).1 == Ok
    ensures var h := PinRegister(g, d, p, Some(ops), priv, a).0;
      && p in h.pins && d in h.devices && d in h.pins[p].dpllRefs
      && Reg(ops, priv, NoCookie) in h.pins[p].dpllRefs[d].regs
      && (PinUnregister(h, d, p, ops, priv) == g <==>
            g.pins[p].parentRefs == map[]
            && (d in g.pins[p].dpllRefs ==> Reg(ops, priv, NoCookie) !in g.pins[p].dpllRefs[d].regs))
  {
    hide Added, Removed;
    var reg := Reg(ops, priv, NoCookie);
    var h := RegisterPair(g, d, p, reg, a).0;
    RegisterPairAtomic(g, d, p, reg, a);
    LinkedKeepsInv(g, p, reg, {d});
    PairRoundTrip(g, d, p, reg, a);
    assert DeviceHalf(h, d, p) == PinHalf(h, d, p);
    assert h.devices[d].pinRefs != map[] by {
      assert g.pins[p].index in h.devices[d].pinRefs;
    }
    assert h.pins[p].parentRefs == g.pins[p].parentRefs;
  }

  /** A refused unregistration changes nothing: no pins on the device, or a pin with parents. */
  lemma PinUnregisterRefused(g: Graph, d: nat, p: nat, ops: PinOps, priv: nat)
    requires Inv(g) && d in g.devices && p in g.pins
    ensures PinUnregister(g, d, p, ops, priv) != g <==>
      g.pins[p].parentRefs == map[] && d in g.pins[p].dpllRefs && Reg(ops, priv, NoCookie) in g.pins[p].dpllRefs[d].regs
  {
    var reg := Reg(ops, priv, NoCookie);
    UnregisterPairMeaning(g, d, p, reg);
    HalvesAgree(g, d, p);
    assert PinTable(g, p) && DeviceTable(g, d);
    var u := Unlinked(g, p, reg, {d});
    if d in g.pins[p].dpllRefs && reg in g.pins[p].dpllRefs[d].regs {
      DropOk(g.pins[p].dpllRefs[d], reg);
      assert Get(u.pins[p].dpllRefs, d) == Drop(g.pins[p].dpllRefs[d], reg) != Get(g.pins[p].dpllRefs, d);
    } else {
      NothingToUnlink(g, p, reg, d);
    }
  }

  lemma NothingToUnlink(g: Graph, p: nat, reg: Reg, d: nat)
    requires Inv(g) && p in g.pins && d in g.devices
    requires d in g.pins[p].dpllRefs ==> reg !in g.pins[p].dpllRefs[d].regs
    ensures Unlinked(g, p, reg, {d}) == g
  {
    NothingLinked(g, p, reg);
    assert FreshOn(g, p, reg, {d}) && SlotsFree(g, p, {});
    UndoRestores(g, p, reg, {}, {d});
  }

  /** A device registration is refused for missing callbacks or type, then as a duplicate, then for want of
      memory; otherwise the pair of ops and private data is listed last. */
  lemma DeviceRegisterOutcome(g: Graph, d: nat, ops: Option<DeviceOps>, typeOk: bool, priv: nat, alloc: bool)
    requires d in g.devices
    ensures var (h, e) := DeviceRegister(g, d, ops, typeOk, priv, alloc);
      && e == (if !(ops.Some? && ops.value.modeGet && ops.value.lockStatusGet && typeOk) then EINVAL
               else if DevReg(ops.value.id, priv) in g.devices[d].regs then EEXIST
               else if alloc then Ok else ENOMEM)
      && (e != Ok ==> h == g)
      && (e == Ok ==> d in h.devices && h.devices[d].regs == g.devices[d].regs + [DevReg(ops.value.id, priv)])
  {
  }

  lemma {:induction false} RemoveFirstCounts<T>(s: seq<T>, x: T)
    ensures multiset(RemoveFirst(s, x)) == multiset(s) - multiset{x}
  {
    if s != [] {
      assert s == [s[0]] + s[1..];
      if s[0] != x {
        RemoveFirstCounts(s[1..], x);
      }
    }
  }

  /** Unregistering takes away exactly the named registration, and changes nothing if it is not listed. */
  lemma DeviceUnregisterOutcome(g: Graph, d: nat, ops: nat, priv: nat)
    requires d in g.devices
    ensures var h := DeviceUnregister(g, d, ops, priv);
      && d in h.devices && multiset(h.devices[d].regs) == multiset(g.devices[d].regs) - multiset{DevReg(ops, priv)}
      && (DevReg(ops, priv) !in g.devices[d].regs ==> h == g)
  {
    RemoveFirstCounts(g.devices[d].regs, DevReg(ops, priv));
  }

  /** Unregistering a device registration just made restores the graph. */
  lemma DeviceRoundTrip(g: Graph, d: nat, ops: DeviceOps, priv: nat)
    requires Inv(g) && d in g.devices && DeviceRegister(g, d, Some(ops), true, priv, true).1 == Ok
    ensures DeviceUnregister(DeviceRegister(g, d, Some(ops), true, priv, true).0, d, ops.id, priv) == g
  {
    var reg := DevReg(ops.id, priv);
    RemoveFirstAppended(g.devices[d].regs, reg);
    var h := DeviceUnregister(DeviceRegister(g, d, Some(ops), true, priv, true).0, d, ops.id, priv);
    assert h.devices == g.devices;
    assert h.deviceMarks == g.deviceMarks;
  }

  /** Whose clock, index and module a device has. */
  predicate IsDevice(g: Graph, d: nat, clockId: nat, index: nat, owner: nat) {
    d in g.devices && g.devices[d].clockId == clockId && g.devices[d].index == index && g.devices[d].owner == owner
  }

  predicate IsPin(g: Graph, p: nat, clockId: nat, index: nat, owner: nat) {
    p in g.pins && g.pins[p].clockId == clockId && g.pins[p].index == index && g.pins[p].owner == owner
  }

  /** Getting a device holds the one of that clock, index and module once more, or creates it with one hold
      under the given index; a put takes exactly that back, for a known device unless it had no hold. */
  lemma DeviceGetPut(g: Graph, clockId: nat, index: nat, owner: nat, id: Option<nat>, d: nat)
    requires Inv(g) && (id.Some? ==> id.value !in g.devices)
    ensures var h := DeviceGet(g, clockId, index, owner, id);
      && (IsDevice(g, d, clockId, index, owner) ==>
            h == g.(devices := g.devices[d := g.devices[d].(refcount := g.devices[d].refcount + 1)])
            && (DevicePut(h, d) == g <==> g.devices[d].refcount >= 1))
      && ((forall e :: !IsDevice(g, e, clockId, index, owner)) ==>
            if id.None? then h == g
            else h == g.(devices := g.devices[id.value := Device(clockId, index, owner, map[], 1, [])])
                 && DevicePut(h, id.value) == g)
  {
    var same := set e | e in g.devices && SameDevice(g.devices[e], clockId, index, owner);
    var at := FindDevice(g, clockId, index, owner);
    assert IsNext(same, 0, at);
    var h := DeviceGet(g, clockId, index, owner, id);
    if IsDevice(g, d, clockId, index, owner) {
      assert d in same && at.Some?;
      assert at.value == d by {
        assert at.value in same;
        assert SameDevice(g.devices[at.value], g.devices[d].clockId, g.devices[d].index, g.devices[d].owner);
      }
      assert h.devices[d := g.devices[d]] == g.devices;
    } else if (forall e :: !IsDevice(g, e, clockId, index, owner)) && id.Some? {
      assert forall e | e in same :: IsDevice(g, e, clockId, index, owner);
      assert h.devices - {id.value} == g.devices;
      assert h.deviceMarks - {id.value} == g.deviceMarks;
    } else if forall e :: !IsDevice(g, e, clockId, index, owner) {
      assert forall e | e in same :: IsDevice(g, e, clockId, index, owner);
    }
  }

  /** The same for pins. */
  lemma PinGetPut(g: Graph, clockId: nat, index: nat, owner: nat, mux: bool, id: Option<nat>, p: nat)
    requires Inv(g) && (id.Some? ==> id.value !in g.pins)
    ensures var h := PinGet(g, clockId, index, owner, mux, id);
      && (IsPin(g, p, clockId, index, owner) ==>
            h == g.(pins := g.pins[p := g.pins[p].(refcount := g.pins[p].refcount + 1)])
            && (PinPut(h, p) == g <==> g.pins[p].refcount != 0))
      && ((forall e :: !IsPin(g, e, clockId, index, owner)) ==>
            if id.None? then h == g
            else h == g.(pins := g.pins[id.value := Pin(clockId, index, owner, mux, map[], map[], 1)])
                 && PinPut(h, id.value) == g)
  {
    var same := set e | e in g.pins && SamePin(g.pins[e], clockId, index, owner);
    var at := FindPin(g, clockId, index, owner);
    assert IsNext(same, 0, at);
    var h := PinGet(g, clockId, index, owner, mux, id);
    if IsPin(g, p, clockId, index, owner) {
      assert p in same && at.Some?;
      assert at.value == p by {
        assert at.value in same;
        assert SamePin(g.pins[at.value], g.pins[p].clockId, g.pins[p].index, g.pins[p].owner);
      }
      assert h.pins[p := g.pins[p]] == g.pins;
    } else if (forall e :: !IsPin(g, e, clockId, index, owner)) && id.Some? {
      assert forall e | e in same :: IsPin(g, e, clockId, index, owner);
      assert h.pins - {id.value} == g.pins;
      assert h.pinMarks - {id.value} == g.pinMarks;
    } else if forall e :: !IsPin(g, e, clockId, index, owner) {
      assert forall e | e in same :: IsPin(g, e, clockId, index, owner);
    }
  }

  // ---- runs -------------------------------------------------------------------------

  datatype Op =
    | GetDevice(clockId: nat, index: nat, owner: nat, newId: Option<nat>)
    | PutDevice(d: nat)
    | RegisterDevice(d: nat, dops: Option<DeviceOps>, typeOk: bool, dpriv: nat, alloc: bool)
    | UnregisterDevice(d: nat, dopsId: nat, dpriv: nat)
    | GetPin(clockId: nat, index: nat, owner: nat, mux: bool, newId: Option<nat>)
    | PutPin(p: nat)
    | RegisterPin(d: nat, p: nat, ops: Option<PinOps>, priv: nat, pair: PairAlloc)
    | UnregisterPin(d: nat, p: nat, uops: PinOps, priv: nat)
    | RegisterOnPin(parent: nat, p: nat, ops: Option<PinOps>, priv: nat, a: Alloc, env: nat -> PairAlloc)
    | UnregisterOnPin(parent: nat, p: nat, uops: PinOps, priv: nat)

  /** What a driver owes the subsystem: it passes live objects, and it drops its last hold on
      an object only after unregistering it everywhere.  A fresh index is not in use. */
  ghost predicate Legal(g: Graph, op: Op) {
    match op
    case GetDevice(_, _, _, id) => id.Some? ==> id.value !in g.devices
    case PutDevice(d) => d in g.devices && (g.devices[d].refcount <= 1 ==> g.devices[d].pinRefs == map[])
    case RegisterDevice(d, _, _, _, _) => d in g.devices
    case UnregisterDevice(d, _, _) => d in g.devices
    case GetPin(_, _, _, _, id) => id.Some? ==> id.value !in g.pins
    case PutPin(p) =>
      p in g.pins && (g.pins[p].refcount == 1 ==>
        g.pins[p].dpllRefs == map[]
        && forall q, k | q in g.pins && q != p && k in g.pins[q].parentRefs :: g.pins[q].parentRefs[k].target != p)
    case RegisterPin(d, p, _, _, _) => d in g.devices && p in g.pins
    case UnregisterPin(d, p, _, _) => d in g.devices && p in g.pins
    case RegisterOnPin(parent, p, _, _, _, _) => parent in g.pins && p in g.pins
    case UnregisterOnPin(parent, p, _, _) => parent in g.pins && p in g.pins
  }

  ghost function Step(g: Graph, op: Op): Graph
    requires Legal(g, op)
  {
    match op
    case GetDevice(c, i, o, id) => DeviceGet(g, c, i, o, id)
    case PutDevice(d) => DevicePut(g, d)
    case RegisterDevice(d, ops, ok, priv, alloc) => DeviceRegister(g, d, ops, ok, priv, alloc).0
    case UnregisterDevice(d, ops, priv) => DeviceUnregister(g, d, ops, priv)
    case GetPin(c, i, o, mux, id) => PinGet(g, c, i, o, mux, id)
    case PutPin(p) => PinPut(g, p)
    case RegisterPin(d, p, ops, priv, pair) => PinRegister(g, d, p, ops, priv, pair).0
    case UnregisterPin(d, p, ops, priv) => PinUnregister(g, d, p, ops, priv)
    case RegisterOnPin(parent, p, ops, priv, a, env) => OnPinRegister(g, parent, p, ops, priv, a, env).0
    case UnregisterOnPin(parent, p, ops, priv) => OnPinUnregister(g, parent, p, ops, priv)
  }

  ghost predicate LegalRun(g: Graph, ops: seq<Op>)
    decreases |ops|
  {
    |ops| == 0 || (Legal(g, ops[0]) && LegalRun(Step(g, ops[0]), ops[1..]))
  }

  ghost function Run(g: Graph, ops: seq<Op>): Graph
    requires LegalRun(g, ops)
    decreases |ops|
  {
    if |ops| == 0 then g else Run(Step(g, ops[0]), ops[1..])
  }

  const EMPTY := Graph(map[], map[], {}, {})

  lemma DeviceChangeKeepsInv(g: Graph, h: Graph, d: nat)
    requires Inv(g) && d in h.devices && h.pins == g.pins && h.pinMarks == g.pinMarks && MarksExact(h)
    requires h.devices == g.devices[d := h.devices[d]]
    requires d in g.devices ==> h.devices[d].(refcount := 0, regs := []) == g.devices[d].(refcount := 0, regs := [])
    requires d !in g.devices ==> h.devices[d].pinRefs == map[]
    requires d !in g.devices ==> FindDevice(g, h.devices[d].clockId, h.devices[d].index, h.devices[d].owner).None?
    requires Distinct(h.devices[d].regs)
    ensures Inv(h)
  {
    forall e | e in h.devices ensures DeviceTable(h, e) {
      if e in g.devices { assert DeviceTable(g, e); }
    }
    forall q | q in h.pins ensures PinTable(h, q) && ParentTable(h, q) {
      assert PinTable(g, q) && ParentTable(g, q);
    }
    forall e, q | e in h.devices && q in h.pins ensures DeviceHalf(h, e, q) == PinHalf(h, e, q) {
      if e in g.devices {
        assert DeviceHalf(g, e, q) == PinHalf(g, e, q);
      } else {
        assert PinTable(g, q);
      }
    }
    forall x, y | x in h.devices && y in h.devices && x != y
      ensures !SameDevice(h.devices[x], h.devices[y].clockId, h.devices[y].index, h.devices[y].owner)
    {
      if x in g.devices && y in g.devices {
        assert !SameDevice(g.devices[x], g.devices[y].clockId, g.devices[y].index, g.devices[y].owner);
      } else {
        var z := if x == d then y else x;
        var dev := h.devices[d];
        var same := set e | e in g.devices && SameDevice(g.devices[e], dev.clockId, dev.index, dev.owner);
        assert IsNext(same, 0, FindDevice(g, dev.clockId, dev.index, dev.owner));
        assert z !in same;
      }
    }
    forall p, q | p in h.pins && q in h.pins && p != q
      ensures !SamePin(h.pins[p], h.pins[q].clockId, h.pins[q].index, h.pins[q].owner)
    {
      assert !SamePin(g.pins[p], g.pins[q].clockId, g.pins[q].index, g.pins[q].owner);
    }
    forall e | e in h.devices ensures Distinct(h.devices[e].regs) {
      if e != d { assert Distinct(g.devices[e].regs); }
    }
  }

  lemma PinChangeKeepsInv(g: Graph, h: Graph, p: nat)
    requires Inv(g) && p in h.pins && h.devices == g.devices && h.deviceMarks == g.deviceMarks
      && h.pinMarks == g.pinMarks
    requires h.pins == g.pins[p := h.pins[p]]
    requires p in g.pins ==> h.pins[p].(refcount := 0) == g.pins[p].(refcount := 0)
    requires p !in g.pins ==> h.pins[p].dpllRefs == map[] && h.pins[p].parentRefs == map[]
    requires p !in g.pins ==> FindPin(g, h.pins[p].clockId, h.pins[p].index, h.pins[p].owner).None?
    ensures Inv(h)
  {
    forall e | e in h.devices ensures DeviceTable(h, e) {
      assert DeviceTable(g, e);
    }
    forall q | q in h.pins ensures PinTable(h, q) && ParentTable(h, q) {
      if q in g.pins { assert PinTable(g, q) && ParentTable(g, q); }
    }
    forall e, q | e in h.devices && q in h.pins ensures DeviceHalf(h, e, q) == PinHalf(h, e, q) {
      if q in g.pins {
        assert DeviceHalf(g, e, q) == PinHalf(g, e, q);
      } else {
        assert DeviceTable(g, e);
      }
    }
    forall x, y | x in h.pins && y in h.pins && x != y
      ensures !SamePin(h.pins[x], h.pins[y].clockId, h.pins[y].index, h.pins[y].owner)
    {
      if x in g.pins && y in g.pins {
        assert !SamePin(g.pins[x], g.pins[y].clockId, g.pins[y].index, g.pins[y].owner);
      } else {
        var z := if x == p then y else x;
        var pin := h.pins[p];
        var same := set q | q in g.pins && SamePin(g.pins[q], pin.clockId, pin.index, pin.owner);
        assert IsNext(same, 0, FindPin(g, pin.clockId, pin.index, pin.owner));
        assert z !in same;
      }
    }
    forall d, e | d in h.devices && e in h.devices && d != e
      ensures !SameDevice(h.devices[d], h.devices[e].clockId, h.devices[e].index, h.devices[e].owner)
    {
      assert !SameDevice(g.devices[d], g.devices[e].clockId, g.devices[e].index, g.devices[e].owner);
    }
  }

  lemma ErasedKeepsInv(g: Graph, h: Graph)
    requires Inv(g) && h.devices.Keys <= g.devices.Keys && h.pins.Keys <= g.pins.Keys && MarksExact(h)
    requires forall d | d in h.devices :: h.devices[d] == g.devices[d]
    requires forall p | p in h.pins :: h.pins[p] == g.pins[p]
    requires forall d | d in g.devices && d !in h.devices :: g.devices[d].pinRefs == map[]
    requires forall p | p in g.pins && p !in h.pins :: g.pins[p].dpllRefs == map[]
    requires forall p, q, k | p in g.pins && p !in h.pins && q in h.pins && k in g.pins[q].parentRefs ::
      g.pins[q].parentRefs[k].target != p
    ensures Inv(h)
  {
    forall e | e in h.devices ensures DeviceTable(h, e) {
      assert DeviceTable(g, e);
      forall k | k in g.devices[e].pinRefs ensures g.devices[e].pinRefs[k].target in h.pins {
        var q := g.devices[e].pinRefs[k].target;
        assert DeviceHalf(g, e, q) == PinHalf(g, e, q);
      }
    }
    forall q | q in h.pins ensures PinTable(h, q) && ParentTable(h, q) {
      assert PinTable(g, q) && ParentTable(g, q);
      forall k | k in g.pins[q].dpllRefs ensures k in h.devices {
        assert DeviceHalf(g, k, q) == PinHalf(g, k, q);
      }
    }
    forall e, q | e in h.devices && q in h.pins ensures DeviceHalf(h, e, q) == PinHalf(h, e, q) {
      assert DeviceHalf(g, e, q) == PinHalf(g, e, q);
    }
    forall x, y | x in h.pins && y in h.pins && x != y
      ensures !SamePin(h.pins[x], h.pins[y].clockId, h.pins[y].index, h.pins[y].owner)
    {
      assert !SamePin(g.pins[x], g.pins[y].clockId, g.pins[y].index, g.pins[y].owner);
    }
    forall d, e | d in h.devices && e in h.devices && d != e
      ensures !SameDevice(h.devices[d], h.devices[e].clockId, h.devices[e].index, h.devices[e].owner)
    {
      assert !SameDevice(g.devices[d], g.devices[e].clockId, g.devices[e].index, g.devices[e].owner);
    }
    forall e | e in h.devices ensures Distinct(h.devices[e].regs) {
      assert Distinct(g.devices[e].regs);
    }
  }

  lemma ObjectStepKeepsInv(g: Graph, op: Op)
    requires Inv(g) && Legal(g, op)
    requires op.GetDevice? || op.PutDevice? || op.GetPin? || op.PutPin?
    ensures Inv(Step(g, op))
  {
    var h := Step(g, op);
    match op
    case GetDevice(c, i, o, id) =>
      var f := FindDevice(g, c, i, o);
      if f.Some? {
        assert Distinct(g.devices[f.value].regs);
        DeviceChangeKeepsInv(g, h, f.value);
      } else if id.Some? {
        DeviceChangeKeepsInv(g, h, id.value);
      }
    case PutDevice(d) =>
      if g.devices[d].refcount <= 1 {
        ErasedKeepsInv(g, h);
      } else {
        assert Distinct(g.devices[d].regs);
        DeviceChangeKeepsInv(g, h, d);
      }
    case GetPin(c, i, o, mux, id) =>
      var f := FindPin(g, c, i, o);
      if f.Some? {
        PinChangeKeepsInv(g, h, f.value);
      } else if id.Some? {
        PinChangeKeepsInv(g, h, id.value);
      }
    case PutPin(p) =>
      if g.pins[p].refcount == 1 {
        ErasedKeepsInv(g, h);
      } else {
        PinChangeKeepsInv(g, h, p);
      }
  }

  lemma DeviceStepKeepsInv(g: Graph, op: Op)
    requires Inv(g) && Legal(g, op)
    requires op.RegisterDevice? || op.UnregisterDevice?
    ensures Inv(Step(g, op))
  {
    var h := Step(g, op);
    if h != g {
      var d := op.d;
      assert Distinct(g.devices[d].regs);
      if op.UnregisterDevice? {
        RemoveFirstDistinct(g.devices[d].regs, DevReg(op.dopsId, op.dpriv));
      }
      DeviceChangeKeepsInv(g, h, d);
    }
  }

  lemma StepKeepsInv(g: Graph, op: Op)
    requires Inv(g) && Legal(g, op)
    ensures Inv(Step(g, op))
  {
    match op
    case RegisterDevice(_, _, _, _, _) => DeviceStepKeepsInv(g, op);
    case UnregisterDevice(_, _, _) => DeviceStepKeepsInv(g, op);
    case RegisterPin(d, p, ops, priv, pair) =>
      if PinRegister(g, d, p, ops, priv, pair).1 == Ok {
        var reg := Reg(ops.value, priv, NoCookie);
        RegisterPairAtomic(g, d, p, reg, pair);
        LinkedKeepsInv(g, p, reg, {d});
      } else if ops.Some? {
        RegisterPairAtomic(g, d, p, Reg(ops.value, priv, NoCookie), pair);
      }
    case UnregisterPin(d, p, ops, priv) =>
      UnregisterPairMeaning(g, d, p, Reg(ops, priv, NoCookie));
      UnlinkedKeepsInv(g, p, Reg(ops, priv, NoCookie), {d});
    case RegisterOnPin(parent, p, ops, priv, a, env) => OnPinKeepsInv(g, parent, p, ops, priv, a, env);
    case UnregisterOnPin(parent, p, ops, priv) => OnPinUnregisterKeepsInv(g, parent, p, ops, priv);
    case _ => ObjectStepKeepsInv(g, op);
  }

  /** What a driver owes before its last put of a pin is exactly what keeps the graph whole: the put
      itself checks nothing. */
  lemma LastPinPutExactly(g: Graph, p: nat)
    requires Inv(g) && p in g.pins && g.pins[p].refcount == 1
    ensures Inv(PinPut(g, p)) <==> Legal(g, PutPin(p))
  {
    var h := PinPut(g, p);
    if Legal(g, PutPin(p)) {
      StepKeepsInv(g, PutPin(p));
    } else if g.pins[p].dpllRefs != map[] {
      var d :| d in g.pins[p].dpllRefs;
      assert PinTable(g, p);
      HalvesAgree(g, d, p);
      assert !DeviceTable(h, d);
    } else {
      var q, k :| q in g.pins && q != p && k in g.pins[q].parentRefs && g.pins[q].parentRefs[k].target == p;
      assert k in h.pins[q].parentRefs && h.pins[q].parentRefs[k].target == p && p !in h.pins;
      assert !ParentTable(h, q);
    }
  }

  /** The same for devices. */
  lemma LastDevicePutExactly(g: Graph, d: nat)
    requires Inv(g) && d in g.devices && g.devices[d].refcount <= 1
    ensures Inv(DevicePut(g, d)) <==> Legal(g, PutDevice(d))
  {
    var h := DevicePut(g, d);
    if Legal(g, PutDevice(d)) {
      StepKeepsInv(g, PutDevice(d));
    } else {
      var k :| k in g.devices[d].pinRefs;
      var q := g.devices[d].pinRefs[k].target;
      assert DeviceTable(g, d);
      HalvesAgree(g, d, q);
      assert !PinTable(h, q);
    }
  }

  /** Every run of the subsystem, failed registrations and duplicates included, ends in a
      graph whose two halves mirror each other. */
  lemma {:induction false} RunKeepsInv(g: Graph, ops: seq<Op>)
    requires Inv(g) && LegalRun(g, ops)
    ensures Inv(Run(g, ops))
    decreases |ops|
  {
    if |ops| > 0 {
      StepKeepsInv(g, ops[0]);
      RunKeepsInv(Step(g, ops[0]), ops[1..]);
    }
  }

  /** What the invariant says from the empty subsystem on, spelled out: device d has a
      reference to pin p exactly when p has one to d, both carry the same triples and count,
      the count covers the triples, p is marked registered
      exactly when it has a device, and d exactly when it has a registration. */
  lemma EveryRunMirrors(ops: seq<Op>, d: nat, p: nat)
    requires LegalRun(EMPTY, ops)
    requires d in Run(EMPTY, ops).devices && p in Run(EMPTY, ops).pins
    ensures var g := Run(EMPTY, ops);
      var refs, refs' := g.devices[d].pinRefs, g.pins[p].dpllRefs;
      && ((exists k :: k in refs && refs[k].target == p) <==> d in refs')
      && (d in refs' ==>
            && g.pins[p].index in refs && refs[g.pins[p].index].target == p
            && refs[g.pins[p].index].regs == refs'[d].regs
            && refs[g.pins[p].index].refcount == refs'[d].refcount
            && refs'[d].refcount >= 1 && refs'[d].refcount >= |refs'[d].regs| && Distinct(refs'[d].regs))
      && (p in g.pinMarks <==> refs' != map[])
      && (d in g.deviceMarks <==> g.devices[d].regs != [])
  {
    assert Inv(EMPTY);
    RunKeepsInv(EMPTY, ops);
    var g := Run(EMPTY, ops);
    assert DeviceHalf(g, d, p) == PinHalf(g, d, p);
    assert DeviceTable(g, d) && PinTable(g, p);
  }
}
