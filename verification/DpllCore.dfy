/** The DPLL subsystem (dpll/dpll_core.c) as it runs: objects whose tables are changed in
    place by search loops, partial failures and undo walks.  Every entry point is proved to
    do what DpllGraph says; dpll_lock makes each one atomic. */
module DpllCore {
  import opened Prelude
  import opened DpllGraph

  class DpllDevice {
    const id: nat
    const clockId: nat
    const index: nat
    const owner: nat
    var pinRefs: Refs
    var refcount: nat
    var registrations: seq<DevReg>

    constructor (id: nat, clockId: nat, index: nat, owner: nat)
      ensures this.id == id && Val() == Device(clockId, index, owner, map[], 1, [])
    {
      this.id, this.clockId, this.index, this.owner := id, clockId, index, owner;
      pinRefs, refcount, registrations := map[], 1, [];
    }

    function Val(): Device
      reads this
    {
      Device(clockId, index, owner, pinRefs, refcount, registrations)
    }
  }

  class DpllPin {
    const id: nat
    const clockId: nat
    const index: nat
    const owner: nat
    const mux: bool
    var dpllRefs: Refs
    var parentRefs: Refs
    var refcount: int

    constructor (id: nat, clockId: nat, index: nat, owner: nat, mux: bool)
      ensures this.id == id && Val() == Pin(clockId, index, owner, mux, map[], map[], 1)
    {
      this.id, this.clockId, this.index, this.owner, this.mux := id, clockId, index, owner, mux;
      dpllRefs, parentRefs, refcount := map[], map[], 1;
    }

    function Val(): Pin
      reads this
    {
      Pin(clockId, index, owner, mux, dpllRefs, parentRefs, refcount)
    }
  }

  // ---- one reference table ---------------------------------------------------

  lemma {:induction false} RemoveFirstAt<T>(s: seq<T>, x: T, i: nat)
    requires i < |s| && s[i] == x && x !in s[..i]
    ensures RemoveFirst(s, x) == s[..i] + s[i + 1..]
  {
    if i > 0 {
      assert s[0] in s[..i];
      assert s[1..][..i - 1] == s[..i][1..];
      RemoveFirstAt(s[1..], x, i - 1);
      assert [s[0]] + s[1..i] == s[..i];
    }
  }

  /** dpll_pin_registration_find: the position of a triple in the list. */
  method RegistrationFind(regs: seq<Reg>, reg: Reg) returns (at: Option<nat>)
    ensures at.None? <==> reg !in regs
    ensures at.Some? ==> at.value < |regs| && regs[at.value] == reg && reg !in regs[..at.value]
  {
    for i := 0 to |regs|
      invariant reg !in regs[..i]
    {
      if regs[i] == reg {
        return Some(i);
      }
    }
    return None;
  }

  /** The xa_for_each search for the reference to target. */
  method RefFind(refs: Refs, target: nat) returns (at: Option<nat>)
    ensures at == Lookup(refs, target)
  {
    ghost var hits, lo: nat := set k | k in refs && refs[k].target == target, 0;
    WalkStart(refs.Keys);
    at := Next(refs.Keys, 0);
    while at.Some?
      invariant at == Next(refs.Keys, lo) && Below(refs.Keys, lo) !! hits
      decreases From(refs.Keys, lo)
    {
      var i := at.value;
      WalkStep(refs.Keys, lo, i);
      if refs[i].target == target {
        WalkMeets(refs.Keys, lo, i, hits);
        return;
      }
      WalkPasses(refs.Keys, lo, i, hits);
      lo := i + 1;
      at := Next(refs.Keys, i + 1);
    }
    WalkMissed(refs.Keys, lo, hits);
  }

  /** dpll_xa_ref_pin_add and dpll_xa_ref_dpll_add, which differ only in the key. */
  method RefAdd(refs: Refs, key: nat, target: nat, reg: Reg, a: Alloc) returns (refs': Refs, e: Errno)
    ensures (refs', e) == Added(refs, key, target, reg, a)
  {
    refs' := refs;
    var at := RefFind(refs, target);
    var slot := key;
    if at.Some? {
      slot := at.value;
      assert slot in refs && refs[slot].target == target;
      var found := RegistrationFind(refs[slot].regs, reg);
      if found.Some? {
        refs' := refs'[slot := refs[slot].(refcount := refs[slot].refcount + 1)];
        return refs', Ok;
      }
    } else {
      if !a.ref {
        return refs', ENOMEM;
      }
      if key in refs' {
        return refs', EBUSY;
      }
      if !a.slot {
        return refs', ENOMEM;
      }
      refs' := refs'[key := Ref(target, [], 1)];
    }
    if !a.reg {
      if at.None? {
        refs' := refs' - {key};
        assert refs' == refs;
      }
      return refs', ENOMEM;
    }
    var r := refs'[slot];
    if at.Some? {
      r := r.(refcount := r.refcount + 1);
    }
    ghost var before := refs';
    refs' := refs'[slot := r.(regs := r.regs + [reg])];
    assert at.None? ==> r.regs + [reg] == [reg] && refs' == refs[key := Ref(target, [reg], 1)];
    assert at.Some? ==> before == refs;
    return refs', Ok;
  }

  /** dpll_xa_ref_pin_del and dpll_xa_ref_dpll_del. */
  method RefDel(refs: Refs, target: nat, reg: Reg) returns (refs': Refs, e: Errno)
    ensures (refs', e) == Removed(refs, target, reg)
  {
    refs' := refs;
    var at := RefFind(refs, target);
    if at.None? {
      return refs', EINVAL;
    }
    var slot := at.value;
    assert slot in refs && refs[slot].target == target;
    var r := refs[slot];
    var found := RegistrationFind(r.regs, reg);
    if found.None? {
      return refs', EINVAL;
    }
    RemoveFirstAt(r.regs, reg, found.value);
    var left := r.regs[..found.value] + r.regs[found.value + 1..];
    if r.refcount <= 1 {
      refs' := refs' - {slot};
    } else {
      refs' := refs'[slot := r.(regs := left, refcount := r.refcount - 1)];
    }
    return refs', Ok;
  }

  /** What creating a pin meets: memory for it, a known type, copies of its properties, and the
      index the allocator hands out. */
  datatype PinLuck = PinLuck(memory: bool, typeOk: bool, copies: bool, newId: Option<nat>)

  function GrantedId(luck: PinLuck): Option<nat> {
    if luck.memory && luck.typeOk && luck.copies then luck.newId else None
  }

  class DpllSubsystem {
    var devices: map<nat, DpllDevice>
    var pins: map<nat, DpllPin>
    var deviceMarks: set<nat>
    var pinMarks: set<nat>
    /** The graph these objects make up; Valid ties it to them. */
    ghost var graph: Graph

    constructor ()
      ensures Valid() && graph == EMPTY
    {
      devices, pins, deviceMarks, pinMarks := map[], map[], {}, {};
      graph := EMPTY;
    }

    ghost function Objects(): set<object>
      reads this`devices, this`pins
    {
      (set i | i in devices :: devices[i] as object) + (set i | i in pins :: pins[i] as object)
    }

    ghost predicate Valid()
      reads this, Objects()
    {
      && graph.devices.Keys == devices.Keys
      && graph.pins.Keys == pins.Keys
      && graph.deviceMarks == deviceMarks
      && graph.pinMarks == pinMarks
      && (forall i {:trigger devices[i]} | i in devices :: devices[i].id == i && graph.devices[i] == devices[i].Val())
      && (forall i {:trigger pins[i]} | i in pins :: pins[i].id == i && graph.pins[i] == pins[i].Val())
    }

    ghost predicate Live(d: DpllDevice, p: DpllPin)
      reads this`devices, this`pins
    {
      LiveDevice(d) && LivePin(p)
    }

    ghost predicate LiveDevice(d: DpllDevice)
      reads this`devices
    {
      d.id in devices && devices[d.id] == d
    }

    ghost predicate LivePin(p: DpllPin)
      reads this`pins
    {
      p.id in pins && pins[p.id] == p
    }

    /** The only places where a table, a count or a mark of a pair changes. */
    method StorePinRefs(d: DpllDevice, refs: Refs)
      requires Valid() && LiveDevice(d)
      modifies d`pinRefs, this`graph
      ensures Valid() && d.pinRefs == refs
      ensures graph == WithPinRefs(old(graph), d.id, refs)
    {
      ghost var h := WithPinRefs(graph, d.id, refs);
      assert graph.devices[d.id] == d.Val();
      d.pinRefs := refs;
      assert h.devices[d.id] == d.Val();
      graph := h;
    }

    method StoreDpllRefs(p: DpllPin, refs: Refs)
      requires Valid() && LivePin(p)
      modifies p`dpllRefs, this`graph
      ensures Valid() && p.dpllRefs == refs
      ensures graph == WithDpllRefs(old(graph), p.id, refs)
    {
      ghost var h := WithDpllRefs(graph, p.id, refs);
      assert graph.pins[p.id] == p.Val();
      p.dpllRefs := refs;
      assert h.pins[p.id] == p.Val();
      graph := h;
    }

    method StoreParentRefs(p: DpllPin, refs: Refs, delta: int)
      requires Valid() && LivePin(p)
      modifies p`parentRefs, p`refcount, this`graph
      ensures Valid() && p.parentRefs == refs
      ensures graph == WithParent(old(graph), p.id, refs, delta)
    {
      ghost var h := WithParent(graph, p.id, refs, delta);
      assert graph.pins[p.id] == p.Val();
      p.parentRefs, p.refcount := refs, p.refcount + delta;
      assert h.pins[p.id] == p.Val();
      graph := h;
    }

    method StorePinMark(p: DpllPin, on: bool)
      requires Valid()
      modifies this`pinMarks, this`graph
      ensures Valid()
      ensures graph == old(graph).(pinMarks := if on then old(graph).pinMarks + {p.id}
        else old(graph).pinMarks - {p.id})
    {
      pinMarks := if on then pinMarks + {p.id} else pinMarks - {p.id};
      graph := graph.(pinMarks := pinMarks);
    }

    lemma Fields(d: DpllDevice, p: DpllPin)
      requires Valid() && Live(d, p)
      ensures d.id in graph.devices && graph.devices[d.id] == d.Val()
      ensures p.id in graph.pins && graph.pins[p.id] == p.Val()
    {
      assert devices[d.id] == d && pins[p.id] == p;
    }

    /** __dpll_pin_register. */
    method RegisterPair(d: DpllDevice, p: DpllPin, reg: Reg, a: PairAlloc) returns (e: Errno)
      requires Valid() && Live(d, p)
      modifies this`pinMarks, this`graph, d`pinRefs, p`dpllRefs
      ensures Valid()
      ensures d.id in old(graph).devices && p.id in old(graph).pins
      ensures (graph, e) == DpllGraph.RegisterPair(old(graph), d.id, p.id, reg, a)
    {
      Fields(d, p);
      var refs, e1 := RefAdd(d.pinRefs, p.index, p.id, reg, a.onDevice);
      if e1 != Ok {
        return e1;
      }
      StorePinRefs(d, refs);
      var refs', e2 := RefAdd(p.dpllRefs, d.id, d.id, reg, a.onPin);
      if e2 != Ok {
        var back, _ := RefDel(d.pinRefs, p.id, reg);
        StorePinRefs(d, back);
        return e2;
      }
      StoreDpllRefs(p, refs');
      StorePinMark(p, true);
      return Ok;
    }

    /** __dpll_pin_unregister. */
    method UnregisterPair(d: DpllDevice, p: DpllPin, reg: Reg)
      requires Valid() && Live(d, p)
      modifies this`pinMarks, this`graph, d`pinRefs, p`dpllRefs
      ensures Valid()
      ensures d.id in old(graph).devices && p.id in old(graph).pins
      ensures graph == DpllGraph.UnregisterPair(old(graph), d.id, p.id, reg)
    {
      Fields(d, p);
      var refs, _ := RefDel(d.pinRefs, p.id, reg);
      StorePinRefs(d, refs);
      var refs', _ := RefDel(p.dpllRefs, d.id, reg);
      StoreDpllRefs(p, refs');
      if p.dpllRefs == map[] {
        StorePinMark(p, false);
      }
    }

    /** The search of dpll_device_get through dpll_device_xa. */
    method DeviceFind(clockId: nat, index: nat, owner: nat) returns (at: Option<nat>)
      requires Valid()
      ensures at == FindDevice(graph, clockId, index, owner)
      ensures at.Some? ==> at.value in devices
    {
      ghost var ids, lo: nat := devices.Keys, 0;
      ghost var hits := set d | d in graph.devices && SameDevice(graph.devices[d], clockId, index, owner);
      WalkStart(ids);
      at := Next(devices.Keys, 0);
      while at.Some?
        invariant at == Next(ids, lo) && Below(ids, lo) !! hits
        decreases From(ids, lo)
      {
        var i := at.value;
        WalkStep(ids, lo, i);
        var d := devices[i];
        if d.clockId == clockId && d.index == index && d.owner == owner {
          WalkMeets(ids, lo, i, hits);
          return;
        }
        WalkPasses(ids, lo, i, hits);
        lo := i + 1;
        at := Next(devices.Keys, i + 1);
      }
      WalkMissed(ids, lo, hits);
    }

    method PinFind(clockId: nat, index: nat, owner: nat) returns (at: Option<nat>)
      requires Valid()
      ensures at == FindPin(graph, clockId, index, owner)
      ensures at.Some? ==> at.value in pins
    {
      ghost var ids, lo: nat := pins.Keys, 0;
      ghost var hits := set p | p in graph.pins && SamePin(graph.pins[p], clockId, index, owner);
      WalkStart(ids);
      at := Next(pins.Keys, 0);
      while at.Some?
        invariant at == Next(ids, lo) && Below(ids, lo) !! hits
        decreases From(ids, lo)
      {
        var i := at.value;
        WalkStep(ids, lo, i);
        var p := pins[i];
        if p.clockId == clockId && p.index == index && p.owner == owner {
          WalkMeets(ids, lo, i, hits);
          return;
        }
        WalkPasses(ids, lo, i, hits);
        lo := i + 1;
        at := Next(pins.Keys, i + 1);
      }
      WalkMissed(ids, lo, hits);
    }

    method HoldDevice(d: DpllDevice)
      requires Valid() && LiveDevice(d)
      modifies this`graph, d`refcount
      ensures Valid()
      ensures d.id in old(graph).devices
      ensures var v := old(graph).devices[d.id];
        graph == old(graph).(devices := old(graph).devices[d.id := v.(refcount := v.refcount + 1)])
    {
      ghost var v := graph.devices[d.id];
      assert devices[d.id] == d;
      d.refcount := d.refcount + 1;
      graph := graph.(devices := graph.devices[d.id := v.(refcount := v.refcount + 1)]);
      assert graph.devices[d.id] == d.Val();
    }

    /** dpll_device_alloc, once an index is found. */
    method DeviceAlloc(id: nat, clockId: nat, index: nat, owner: nat) returns (d: DpllDevice)
      requires Valid() && id !in devices
      modifies this`devices, this`graph
      ensures Valid() && LiveDevice(d)
      ensures graph == old(graph).(devices := old(graph).devices[id := Device(clockId, index, owner, map[], 1, [])])
    {
      d := new DpllDevice(id, clockId, index, owner);
      devices := devices[id := d];
      graph := graph.(devices := graph.devices[id := Device(clockId, index, owner, map[], 1, [])]);
    }

    /** dpll_device_get; newId is the index xa_alloc_cyclic hands out, None when memory is short. */
    method DeviceGet(clockId: nat, index: nat, owner: nat, newId: Option<nat>) returns (d: DpllDevice?, e: Errno)
      requires Valid() && (newId.Some? ==> newId.value !in devices)
      modifies this`devices, this`graph, Devices()`refcount
      ensures Valid()
      ensures graph == DpllGraph.DeviceGet(old(graph), clockId, index, owner, newId)
      ensures d != null ==> LiveDevice(d)
      ensures e == if d != null then Ok else ENOMEM
      ensures d == null <==> FindDevice(old(graph), clockId, index, owner).None? && newId.None?
    {
      e := Ok;
      var at := DeviceFind(clockId, index, owner);
      if at.Some? {
        d := devices[at.value];
        HoldDevice(d);
      } else if newId.None? {
        return null, ENOMEM;
      } else {
        d := DeviceAlloc(newId.value, clockId, index, owner);
      }
    }

    /** dpll_device_put. */
    method DevicePut(d: DpllDevice)
      requires Valid() && LiveDevice(d)
      modifies this`devices, this`deviceMarks, this`graph, d`refcount
      ensures Valid()
      ensures d.id in old(graph).devices && graph == DpllGraph.DevicePut(old(graph), d.id)
    {
      ghost var g := graph;
      assert devices[d.id] == d;
      if d.refcount <= 1 {
        devices := devices - {d.id};
        deviceMarks := deviceMarks - {d.id};
        graph := DpllGraph.DevicePut(g, d.id);
      } else {
        d.refcount := d.refcount - 1;
        graph := DpllGraph.DevicePut(g, d.id);
        assert graph.devices[d.id] == d.Val();
      }
    }

    method HoldPin(p: DpllPin)
      requires Valid() && LivePin(p)
      modifies this`graph, p`refcount
      ensures Valid()
      ensures p.id in old(graph).pins
      ensures var v := old(graph).pins[p.id];
        graph == old(graph).(pins := old(graph).pins[p.id := v.(refcount := v.refcount + 1)])
    {
      ghost var v := graph.pins[p.id];
      assert pins[p.id] == p;
      p.refcount := p.refcount + 1;
      graph := graph.(pins := graph.pins[p.id := v.(refcount := v.refcount + 1)]);
      assert graph.pins[p.id] == p.Val();
    }

    /** dpll_pin_alloc, once an index is found. */
    method PinAlloc(id: nat, clockId: nat, index: nat, owner: nat, mux: bool) returns (p: DpllPin)
      requires Valid() && id !in pins
      modifies this`pins, this`graph
      ensures Valid() && LivePin(p)
      ensures graph == old(graph).(pins := old(graph).pins[id := Pin(clockId, index, owner, mux, map[], map[], 1)])
    {
      p := new DpllPin(id, clockId, index, owner, mux);
      pins := pins[id := p];
      graph := graph.(pins := graph.pins[id := Pin(clockId, index, owner, mux, map[], map[], 1)]);
    }

    /** dpll_pin_get; an unknown pin is allocated with luck.memory, checked for its type, given copies
        of its properties and an index. */
    method PinGet(clockId: nat, index: nat, owner: nat, mux: bool, luck: PinLuck) returns (p: DpllPin?, e: Errno)
      requires Valid() && (luck.newId.Some? ==> luck.newId.value !in pins)
      modifies this`pins, this`graph, Pins()`refcount
      ensures Valid()
      ensures graph == DpllGraph.PinGet(old(graph), clockId, index, owner, mux, GrantedId(luck))
      ensures p != null <==> e == Ok
      ensures p != null ==> LivePin(p)
      ensures e == if FindPin(old(graph), clockId, index, owner).Some? || GrantedId(luck).Some? then Ok
                   else if luck.memory && !luck.typeOk then EINVAL else ENOMEM
    {
      e := Ok;
      var at := PinFind(clockId, index, owner);
      if at.Some? {
        p := pins[at.value];
        HoldPin(p);
      } else if !luck.memory {
        return null, ENOMEM;
      } else if !luck.typeOk {
        return null, EINVAL;
      } else if !luck.copies || luck.newId.None? {
        return null, ENOMEM;
      } else {
        p := PinAlloc(luck.newId.value, clockId, index, owner, mux);
      }
    }

    /** dpll_pin_put. */
    method PinPut(p: DpllPin)
      requires Valid() && LivePin(p)
      modifies this`pins, this`pinMarks, this`graph, p`refcount
      ensures Valid()
      ensures p.id in old(graph).pins && graph == DpllGraph.PinPut(old(graph), p.id)
    {
      ghost var g := graph;
      assert pins[p.id] == p;
      if p.refcount == 1 {
        pins := pins - {p.id};
        pinMarks := pinMarks - {p.id};
        graph := DpllGraph.PinPut(g, p.id);
      } else {
        p.refcount := p.refcount - 1;
        graph := DpllGraph.PinPut(g, p.id);
        assert graph.pins[p.id] == p.Val();
      }
    }

    method StoreRegistrations(d: DpllDevice, regs: seq<DevReg>, marks: set<nat>)
      requires Valid() && LiveDevice(d)
      modifies this`deviceMarks, this`graph, d`registrations
      ensures Valid()
      ensures d.id in old(graph).devices
      ensures graph == old(graph).(devices := old(graph).devices[d.id := old(graph).devices[d.id].(regs := regs)],
                                   deviceMarks := marks)
    {
      ghost var v := graph.devices[d.id];
      assert devices[d.id] == d;
      d.registrations := regs;
      deviceMarks := marks;
      graph := graph.(devices := graph.devices[d.id := v.(regs := regs)], deviceMarks := marks);
      assert graph.devices[d.id] == d.Val();
    }

    /** dpll_device_register. */
    method DeviceRegister(d: DpllDevice, ops: Option<DeviceOps>, typeOk: bool, priv: nat, alloc: bool)
      returns (e: Errno)
      requires Valid() && LiveDevice(d)
      modifies this`deviceMarks, this`graph, d`registrations
      ensures Valid()
      ensures d.id in old(graph).devices
      ensures (graph, e) == DpllGraph.DeviceRegister(old(graph), d.id, ops, typeOk, priv, alloc)
    {
      assert devices[d.id] == d;
      if ops.None? || !ops.value.modeGet || !ops.value.lockStatusGet || !typeOk {
        return EINVAL;
      }
      var reg := DevReg(ops.value.id, priv);
      if reg in d.registrations {
        return EEXIST;
      }
      if !alloc {
        return ENOMEM;
      }
      StoreRegistrations(d, d.registrations + [reg], if d.registrations == [] then deviceMarks + {d.id}
        else deviceMarks);
      return Ok;
    }

    /** dpll_device_unregister. */
    method DeviceUnregister(d: DpllDevice, ops: nat, priv: nat)
      requires Valid() && LiveDevice(d)
      modifies this`deviceMarks, this`graph, d`registrations
      ensures Valid()
      ensures d.id in old(graph).devices && graph == DpllGraph.DeviceUnregister(old(graph), d.id, ops, priv)
    {
      assert devices[d.id] == d;
      var reg := DevReg(ops, priv);
      for i := 0 to |d.registrations|
        invariant reg !in d.registrations[..i]
      {
        if d.registrations[i] == reg {
          RemoveFirstAt(d.registrations, reg, i);
          var regs := d.registrations[..i] + d.registrations[i + 1..];
          StoreRegistrations(d, regs, if regs == [] then deviceMarks - {d.id} else deviceMarks);
          return;
        }
      }
    }

    /** dpll_pin_register. */
    method PinRegister(d: DpllDevice, p: DpllPin, ops: Option<PinOps>, priv: nat, a: PairAlloc) returns (e: Errno)
      requires Valid() && Live(d, p)
      modifies this`pinMarks, this`graph, d`pinRefs, p`dpllRefs
      ensures d.id in old(graph).devices && p.id in old(graph).pins
      ensures Valid()
      ensures graph == DpllGraph.PinRegister(old(graph), d.id, p.id, ops, priv, a).0
      ensures e == DpllGraph.PinRegister(old(graph), d.id, p.id, ops, priv, a).1
    {
      Fields(d, p);
      if ops.None? || !ops.value.stateOnDpllGet || !ops.value.directionGet {
        return EINVAL;
      }
      if !(d.owner == p.owner && d.clockId == p.clockId) {
        e := EINVAL;
      } else {
        e := RegisterPair(d, p, Reg(ops.value, priv, NoCookie), a);
      }
    }

    /** dpll_pin_unregister. */
    method PinUnregister(d: DpllDevice, p: DpllPin, ops: PinOps, priv: nat)
      requires Valid() && Live(d, p)
      modifies this`pinMarks, this`graph, d`pinRefs, p`dpllRefs
      ensures d.id in old(graph).devices && p.id in old(graph).pins
      ensures Valid()
      ensures graph == DpllGraph.PinUnregister(old(graph), d.id, p.id, ops, priv)
    {
      Fields(d, p);
      if d.pinRefs == map[] {
        return;
      }
      if p.parentRefs != map[] {
        return;
      }
      UnregisterPair(d, p, Reg(ops, priv, NoCookie));
    }

    ghost function Devices(): set<DpllDevice>
      reads this`devices
    {
      set i | i in devices :: devices[i]
    }

    ghost function Pins(): set<DpllPin>
      reads this`pins
    {
      set i | i in pins :: pins[i]
    }

    /** The reference's device, as ref->dpll. */
    method DeviceOf(p: DpllPin, i: nat) returns (d: DpllDevice)
      requires Valid() && Inv(graph) && LivePin(p) && i in p.dpllRefs
      ensures LiveDevice(d) && d.id == i
    {
      assert pins[p.id] == p;
      assert PinTable(graph, p.id);
      d := devices[p.dpllRefs[i].target];
    }

    lemma PinFields(p: DpllPin)
      requires Valid() && LivePin(p)
      ensures p.id in graph.pins && graph.pins[p.id] == p.Val()
      ensures graph.pins[p.id].dpllRefs == p.dpllRefs && graph.pins[p.id].parentRefs == p.parentRefs
      ensures graph.pins[p.id].mux == p.mux && graph.pins[p.id].index == p.index
    {
      assert pins[p.id] == p;
    }

    /** One step of the walk over the parent's devices. */
    method RegisterStep(parent: DpllPin, p: DpllPin, reg: Reg, a: PairAlloc, i: nat,
                        ghost g: Graph, ghost ids: set<nat>, ghost lo: nat) returns (e: Errno)
      requires Valid() && Inv(graph) && LivePin(parent) && LivePin(p) && parent.dpllRefs.Keys == ids
      requires Inv(g) && parent.id in g.pins && p.id in g.pins && g.pins[parent.id].dpllRefs.Keys == ids
      requires Next(ids, lo) == Some(i) && graph == Linked(g, p.id, reg, Below(ids, lo))
      modifies this`pinMarks, this`graph, Devices()`pinRefs, p`dpllRefs
      ensures Valid() && Inv(graph) && parent.dpllRefs.Keys == ids
      ensures i in g.devices && e == DpllGraph.RegisterPair(g, i, p.id, reg, a).1
      ensures graph == Linked(g, p.id, reg, Below(ids, if e == Ok then i + 1 else lo))
    {
      hide Linked, Unlinked, DpllGraph.RegisterPair, DpllGraph.UnregisterPair, Inv, Added, Removed, FailingOn,
        WithParent, DpllGraph.OnPinRegister, DpllGraph.OnPinUnregister, Below, Next;
      WalkStep(ids, lo, i);
      var d := DeviceOf(parent, i);
      StepDevice(g, d, p.id, reg, Below(ids, lo));
      e := RegisterOn(parent, p, d, reg, a, g, ids, lo);
    }

    method RegisterOn(parent: DpllPin, p: DpllPin, d: DpllDevice, reg: Reg, a: PairAlloc,
                      ghost g: Graph, ghost ids: set<nat>, ghost lo: nat) returns (e: Errno)
      requires Valid() && Inv(graph) && LivePin(parent) && LivePin(p) && Live(d, p) && parent.dpllRefs.Keys == ids
      requires Inv(g) && parent.id in g.pins && p.id in g.pins && g.pins[parent.id].dpllRefs.Keys == ids
      requires d.id in g.devices && d in Devices()
      requires Next(ids, lo) == Some(d.id) && graph == Linked(g, p.id, reg, Below(ids, lo))
      modifies this`pinMarks, this`graph, Devices()`pinRefs, p`dpllRefs
      ensures Valid() && Inv(graph) && parent.dpllRefs.Keys == ids
      ensures e == DpllGraph.RegisterPair(g, d.id, p.id, reg, a).1
      ensures graph == Linked(g, p.id, reg, Below(ids, if e == Ok then d.id + 1 else lo))
    {
      hide *;
      NextPair(g, p.id, reg, a, ids, lo, d.id);
      e := RegisterPair(d, p, reg, a);
      WalkKeys(g, parent.id, p.id, reg, ids, d.id + 1);
      WalkKeys(g, parent.id, p.id, reg, ids, lo);
      PinFields(parent);
    }

    lemma StepDevice(g: Graph, d: DpllDevice, p: nat, reg: Reg, ds: set<nat>)
      requires Valid() && LiveDevice(d) && p in g.pins && graph == Linked(g, p, reg, ds)
      ensures d.id in g.devices && d in Devices()
    {
      assert devices[d.id] == d;
    }

    lemma WalkKeys(g: Graph, parent: nat, p: nat, reg: Reg, ids: set<nat>, lo: nat)
      requires Inv(g) && parent in g.pins && p in g.pins && g.pins[parent].dpllRefs.Keys == ids
      ensures parent in Linked(g, p, reg, Below(ids, lo)).pins
      ensures Linked(g, p, reg, Below(ids, lo)).pins[parent].dpllRefs.Keys == ids
    {
      ParentKeysStay(g, parent, p, reg, Below(ids, lo), {});
    }

    /** Registers p on the devices of parent in ascending order, up to the first failure. */
    method RegisterWalk(parent: DpllPin, p: DpllPin, reg: Reg, env: nat -> PairAlloc, ghost g: Graph,
      ghost ids: set<nat>)
      returns (e: Errno, stop: nat)
      requires Valid() && Inv(graph) && LivePin(parent) && LivePin(p) && parent.dpllRefs.Keys == ids
      requires graph == g && parent.id in g.pins && p.id in g.pins
      modifies this`pinMarks, this`graph, Devices()`pinRefs, p`dpllRefs
      ensures Valid() && Inv(graph) && parent.dpllRefs.Keys == ids
      ensures e == Ok ==> Next(FailingOn(g, parent.id, p.id, reg, env), 0) == None
      ensures e == Ok ==> graph == Linked(g, p.id, reg, ids)
      ensures e != Ok ==> Next(FailingOn(g, parent.id, p.id, reg, env), 0) == Some(stop)
      ensures e != Ok ==> graph == Linked(g, p.id, reg, Below(ids, stop))
      ensures e != Ok ==> stop in g.devices && e == DpllGraph.RegisterPair(g, stop, p.id, reg, env(stop)).1
    {
      hide *;
      ghost var lo: nat := 0;
      ghost var failing := FailingOn(g, parent.id, p.id, reg, env);
      PinFields(parent);
      FailingWithin(g, parent.id, p.id, reg, env, ids);
      NothingLinked(g, p.id, reg);
      WalkStart(ids);
      stop := 0;
      var cur := Next(parent.dpllRefs.Keys, 0);
      while cur.Some?
        invariant Valid() && Inv(graph) && parent.dpllRefs.Keys == ids
        invariant cur == Next(ids, lo) && Below(ids, lo) !! failing
        invariant graph == Linked(g, p.id, reg, Below(ids, lo))
        decreases From(ids, lo)
      {
        var i := cur.value;
        WalkStep(ids, lo, i);
        e := RegisterStep(parent, p, reg, env(i), i, g, ids, lo);
        FailingAt(g, parent.id, p.id, reg, env, i);
        if e != Ok {
          WalkMeets(ids, lo, i, failing);
          return e, i;
        }
        WalkPasses(ids, lo, i, failing);
        lo := i + 1;
        cur := Next(parent.dpllRefs.Keys, i + 1);
      }
      WalkEnd(ids, lo);
      WalkMissed(ids, lo, failing);
      return Ok, 0;
    }

    method UnregisterStep(parent: DpllPin, p: DpllPin, reg: Reg, i: nat,
                          ghost h: Graph, ghost ids: set<nat>, ghost lo: nat)
      requires Valid() && Inv(graph) && LivePin(parent) && LivePin(p)
      requires p.id in h.pins && i in parent.dpllRefs
      requires Next(ids, lo) == Some(i) && graph == Unlinked(h, p.id, reg, Below(ids, lo))
      modifies this`pinMarks, this`graph, Devices()`pinRefs, p`dpllRefs
      ensures Valid() && Inv(graph)
      ensures graph == Unlinked(h, p.id, reg, Below(ids, i + 1))
    {
      var d := DeviceOf(parent, i);
      assert devices[d.id] == d;
      NextUnpair(h, p.id, reg, ids, lo, i);
      UnregisterPair(d, p, reg);
    }

    /** The rollback walk: every device of the parent below the one that failed. */
    method UndoWalk(parent: DpllPin, p: DpllPin, reg: Reg, stop: nat, ghost g: Graph, ghost ids: set<nat>)
      requires Valid() && Inv(graph) && LivePin(parent) && LivePin(p) && parent.dpllRefs.Keys == ids
      requires Inv(g) && parent.id in g.pins && p.id in g.pins && g.pins[parent.id].dpllRefs.Keys == ids
      requires stop in ids && graph == Linked(g, p.id, reg, Below(ids, stop))
      modifies this`pinMarks, this`graph, Devices()`pinRefs, p`dpllRefs
      ensures Valid() && Inv(graph)
      ensures graph == Unlinked(Linked(g, p.id, reg, Below(ids, stop)), p.id, reg, Below(ids, stop))
    {
      hide *;
      ghost var h, lo: nat := graph, 0;
      PinFields(p);
      NothingLinked(h, p.id, reg);
      WalkStart(ids);
      var cur := Next(parent.dpllRefs.Keys, 0);
      while cur.Some?
        invariant Valid() && Inv(graph) && parent.dpllRefs.Keys == ids
        invariant cur == Next(ids, lo) && p.id in h.pins
        invariant lo <= stop ==> graph == Unlinked(h, p.id, reg, Below(ids, lo))
        invariant lo > stop ==> graph == Unlinked(h, p.id, reg, Below(ids, stop))
        decreases From(ids, lo)
      {
        var i := cur.value;
        WalkStep(ids, lo, i);
        if i < stop {
          UnregisterStep(parent, p, reg, i, h, ids, lo);
          UndoKeys(g, h, parent.id, p.id, reg, ids, stop, i + 1);
          PinFields(parent);
        } else {
          WalkOver(ids, lo, i, stop);
        }
        lo := i + 1;
        cur := Next(parent.dpllRefs.Keys, i + 1);
      }
      WalkOverEnd(ids, lo, stop);
    }

    lemma WalkOver(ids: set<nat>, lo: nat, i: nat, stop: nat)
      requires Next(ids, lo) == Some(i) && stop in ids && stop <= i
      ensures lo <= stop ==> i == stop && Below(ids, lo) == Below(ids, stop)
    {
      WalkStep(ids, lo, i);
      assert IsNext(ids, lo, Some(i));
    }

    lemma WalkOverEnd(ids: set<nat>, lo: nat, stop: nat)
      requires Next(ids, lo) == None && stop in ids
      ensures lo > stop
    {
      assert IsNext(ids, lo, None);
    }

    lemma UndoKeys(g: Graph, h: Graph, parent: nat, p: nat, reg: Reg, ids: set<nat>, stop: nat, lo: nat)
      requires Inv(g) && parent in g.pins && p in g.pins && g.pins[parent].dpllRefs.Keys == ids && lo <= stop
      requires h == Linked(g, p, reg, Below(ids, stop)) && p in h.pins
      ensures parent in Unlinked(h, p, reg, Below(ids, lo)).pins
      ensures Unlinked(h, p, reg, Below(ids, lo)).pins[parent].dpllRefs.Keys == ids
    {
      assert Below(ids, lo) <= Below(ids, stop);
      ParentKeysStay(g, parent, p, reg, Below(ids, stop), Below(ids, lo));
    }

    /** The walk and, when a device fails, its rollback. */
    method RegisterAll(parent: DpllPin, p: DpllPin, reg: Reg, env: nat -> PairAlloc, ghost g: Graph,
      ghost ids: set<nat>)
      returns (e: Errno, ghost stop: nat)
      requires Valid() && Inv(graph) && LivePin(parent) && LivePin(p) && parent.dpllRefs.Keys == ids
      requires graph == g && parent.id in g.pins && p.id in g.pins
      modifies this`pinMarks, this`graph, Devices()`pinRefs, p`dpllRefs
      ensures Valid() && Inv(graph)
      ensures e == Ok ==> Next(FailingOn(g, parent.id, p.id, reg, env), 0) == None
      ensures e == Ok ==> graph == Linked(g, p.id, reg, ids)
      ensures e != Ok ==> Next(FailingOn(g, parent.id, p.id, reg, env), 0) == Some(stop)
      ensures e != Ok ==> p.id in Linked(g, p.id, reg, Below(ids, stop)).pins
      ensures e != Ok ==> graph == Unlinked(Linked(g, p.id, reg, Below(ids, stop)), p.id, reg, Below(ids, stop))
      ensures e != Ok ==> stop in g.devices && e == DpllGraph.RegisterPair(g, stop, p.id, reg, env(stop)).1
    {
      hide Linked, Unlinked, DpllGraph.RegisterPair, DpllGraph.UnregisterPair, Inv, FailingOn, Below, Next;
      PinFields(parent);
      var at;
      e, at := RegisterWalk(parent, p, reg, env, g, ids);
      stop := at;
      if e != Ok {
        FailingWithin(g, parent.id, p.id, reg, env, ids);
        NextIn(FailingOn(g, parent.id, p.id, reg, env), at);
        PinFields(p);
        UndoWalk(parent, p, reg, at, g, ids);
      }
    }

    /** dpll_pin_on_pin_register. */
    method OnPinRegister(parent: DpllPin, p: DpllPin, ops: Option<PinOps>, priv: nat, a: Alloc, env: nat -> PairAlloc)
      returns (e: Errno)
      requires Valid() && Inv(graph) && LivePin(parent) && LivePin(p)
      modifies this`pinMarks, this`graph, Devices()`pinRefs, p`dpllRefs, p`parentRefs, p`refcount
      ensures Valid()
      ensures parent.id in old(graph).pins && p.id in old(graph).pins
      ensures (graph, e) == DpllGraph.OnPinRegister(old(graph), parent.id, p.id, ops, priv, a, env)
    {
      hide Linked, Unlinked, DpllGraph.RegisterPair, DpllGraph.UnregisterPair, Inv, Added, Removed, FailingOn,
        WithParent, DpllGraph.OnPinRegister, DpllGraph.OnPinUnregister, Below, Next;
      ghost var g := graph;
      PinFields(p);
      PinFields(parent);
      if !parent.mux || ops.None? || !ops.value.stateOnPinGet || !ops.value.directionGet {
        OnPinRejected(g, parent.id, p.id, ops, priv, a, env);
        return EINVAL;
      }
      var preg, reg := ParentReg(ops.value, priv, p.id), ChildReg(ops.value, priv, parent.id);
      var prefs, e1 := RefAdd(p.parentRefs, parent.index, parent.id, preg, a);
      if e1 != Ok {
        OnPinRefused(g, parent.id, p.id, ops, priv, a, env);
        return e1;
      }
      ParentAdded(g, parent.id, p.id, preg, a);
      StoreParentRefs(p, prefs, 1);
      ghost var g1, ids := graph, parent.dpllRefs.Keys;
      PinFields(p);
      PinFields(parent);
      ghost var stop;
      e, stop := RegisterAll(parent, p, reg, env, g1, ids);
      if e != Ok {
        PinFields(p);
        ghost var g2 := graph;
        var back, _ := RefDel(p.parentRefs, parent.id, preg);
        OnPinStopped(g, parent.id, p.id, ops, priv, a, env, stop, g1, g2, back);
        StoreParentRefs(p, back, -1);
      } else {
        OnPinDone(g, parent.id, p.id, ops, priv, a, env);
      }
    }

    /** dpll_pin_on_pin_unregister: sweeps the pin's own table while entries leave it. */
    method OnPinUnregister(parent: DpllPin, p: DpllPin, ops: PinOps, priv: nat)
      requires Valid() && Inv(graph) && LivePin(parent) && LivePin(p)
      modifies this`pinMarks, this`graph, Devices()`pinRefs, p`dpllRefs, p`parentRefs, p`refcount
      ensures Valid()
      ensures parent.id in old(graph).pins && p.id in old(graph).pins
      ensures graph == DpllGraph.OnPinUnregister(old(graph), parent.id, p.id, ops, priv)
    {
      hide Linked, Unlinked, DpllGraph.RegisterPair, DpllGraph.UnregisterPair, Inv, Added, Removed, FailingOn,
        WithParent, DpllGraph.OnPinRegister, DpllGraph.OnPinUnregister, Below, Next;
      ghost var g := graph;
      PinFields(p);
      PinFields(parent);
      var preg, reg := ParentReg(ops, priv, p.id), ChildReg(ops, priv, parent.id);
      var prefs, _ := RefDel(p.parentRefs, parent.id, preg);
      ParentRemoved(g, parent.id, p.id, preg);
      StoreParentRefs(p, prefs, -1);
      PinFields(p);
      ghost var g1 := graph;
      SweepWalk(p, reg, g1);
      OnPinSwept(g, parent.id, p.id, ops, priv, g1);
    }

    method SweepWalk(p: DpllPin, reg: Reg, ghost g: Graph)
      requires Valid() && Inv(graph) && LivePin(p) && graph == g && p.id in g.pins
      modifies this`pinMarks, this`graph, Devices()`pinRefs, p`dpllRefs
      ensures Valid()
      ensures graph == Unlinked(g, p.id, reg, g.pins[p.id].dpllRefs.Keys)
    {
      hide *;
      ghost var ids, lo: nat := p.dpllRefs.Keys, 0;
      PinFields(p);
      NothingLinked(g, p.id, reg);
      WalkStart(ids);
      SweepNext(g, p.id, reg, ids, 0, Next(ids, 0));
      var cur := Next(p.dpllRefs.Keys, 0);
      while cur.Some?
        invariant Valid() && Inv(graph)
        invariant cur == Next(ids, lo) && (cur.Some? ==> cur.value in p.dpllRefs)
        invariant graph == Unlinked(g, p.id, reg, Below(ids, lo))
        decreases From(ids, lo)
      {
        var i := cur.value;
        WalkStep(ids, lo, i);
        UnregisterStep(p, p, reg, i, g, ids, lo);
        lo := i + 1;
        cur := Next(p.dpllRefs.Keys, i + 1);
        PinFields(p);
        SweepNext(g, p.id, reg, ids, lo, cur);
      }
      WalkEnd(ids, lo);
    }

    /** Entries erased behind the cursor do not change what the walk finds next. */
    lemma SweepNext(g: Graph, p: nat, reg: Reg, ids: set<nat>, lo: nat, cur: Option<nat>)
      requires p in g.pins && ids == g.pins[p].dpllRefs.Keys && p in Unlinked(g, p, reg, Below(ids, lo)).pins
      requires cur == Next(Unlinked(g, p, reg, Below(ids, lo)).pins[p].dpllRefs.Keys, lo)
      ensures cur == Next(ids, lo)
      ensures cur.Some? ==> cur.value in Unlinked(g, p, reg, Below(ids, lo)).pins[p].dpllRefs
    {
      var left := Unlinked(g, p, reg, Below(ids, lo)).pins[p].dpllRefs;
      assert IsNext(left.Keys, lo, cur);
      assert forall k: nat | lo <= k :: k in ids <==> k in left;
      NextIs(ids, lo, cur);
    }
  }

  // ---- how the pieces of an on-pin operation add up to its meaning -----------------

  lemma FailingWithin(g: Graph, parent: nat, p: nat, reg: Reg, env: nat -> PairAlloc, ids: set<nat>)
    requires parent in g.pins && p in g.pins && g.pins[parent].dpllRefs.Keys == ids
    ensures FailingOn(g, parent, p, reg, env) <= ids
  {
  }

  lemma FailingAt(g: Graph, parent: nat, p: nat, reg: Reg, env: nat -> PairAlloc, i: nat)
    requires parent in g.pins && p in g.pins && i in g.pins[parent].dpllRefs && i in g.devices
    ensures i in FailingOn(g, parent, p, reg, env) <==> DpllGraph.RegisterPair(g, i, p, reg, env(i)).1 != Ok
  {
  }

  lemma NextIn(s: set<nat>, i: nat)
    requires Next(s, 0) == Some(i)
    ensures i in s
  {
    assert IsNext(s, 0, Some(i));
  }

  lemma OnPinRejected(g: Graph, parent: nat, p: nat, ops: Option<PinOps>, priv: nat, a: Alloc, env: nat -> PairAlloc)
    requires parent in g.pins && p in g.pins
    requires !g.pins[parent].mux || ops.None? || !ops.value.stateOnPinGet || !ops.value.directionGet
    ensures DpllGraph.OnPinRegister(g, parent, p, ops, priv, a, env) == (g, EINVAL)
  {
  }

  lemma OnPinRefused(g: Graph, parent: nat, p: nat, ops: Option<PinOps>, priv: nat, a: Alloc, env: nat -> PairAlloc)
    requires parent in g.pins && p in g.pins && g.pins[parent].mux
    requires ops.Some? && ops.value.stateOnPinGet && ops.value.directionGet
    requires Added(g.pins[p].parentRefs, g.pins[parent].index, parent, ParentReg(ops.value, priv, p), a).1 != Ok
    ensures DpllGraph.OnPinRegister(g, parent, p, ops, priv, a, env)
         == (g, Added(g.pins[p].parentRefs, g.pins[parent].index, parent, ParentReg(ops.value, priv, p), a).1)
  {
  }

  lemma OnPinDone(g: Graph, parent: nat, p: nat, ops: Option<PinOps>, priv: nat, a: Alloc, env: nat -> PairAlloc)
    requires parent in g.pins && p in g.pins && g.pins[parent].mux
    requires ops.Some? && ops.value.stateOnPinGet && ops.value.directionGet
    requires Added(g.pins[p].parentRefs, g.pins[parent].index, parent, ParentReg(ops.value, priv, p), a).1 == Ok
    requires var g1 := WithParent(g, p,
      Added(g.pins[p].parentRefs, g.pins[parent].index, parent, ParentReg(ops.value, priv, p), a).0, 1);
      parent in g1.pins && p in g1.pins
        && Next(FailingOn(g1, parent, p, ChildReg(ops.value, priv, parent), env), 0) == None
    ensures var g1 := WithParent(g, p,
      Added(g.pins[p].parentRefs, g.pins[parent].index, parent, ParentReg(ops.value, priv, p), a).0, 1);
      p in g1.pins && DpllGraph.OnPinRegister(g, parent, p, ops, priv, a, env)
         == (Linked(g1, p, ChildReg(ops.value, priv, parent), g.pins[parent].dpllRefs.Keys), Ok)
  {
  }

  lemma OnPinStopped(g: Graph, parent: nat, p: nat, ops: Option<PinOps>, priv: nat, a: Alloc, env: nat -> PairAlloc,
                     stop: nat, g1: Graph, g2: Graph, back: Refs)
    requires parent in g.pins && p in g.pins && g.pins[parent].mux
    requires ops.Some? && ops.value.stateOnPinGet && ops.value.directionGet
    requires var add := Added(g.pins[p].parentRefs, g.pins[parent].index, parent, ParentReg(ops.value, priv, p), a);
      add.1 == Ok && g1 == WithParent(g, p, add.0, 1)
    requires parent in g1.pins && p in g1.pins && stop in g1.devices
    requires Next(FailingOn(g1, parent, p, ChildReg(ops.value, priv, parent), env), 0) == Some(stop)
    requires var reg, done := ChildReg(ops.value, priv, parent), Below(g.pins[parent].dpllRefs.Keys, stop);
      p in Linked(g1, p, reg, done).pins && g2 == Unlinked(Linked(g1, p, reg, done), p, reg, done) && p in g2.pins
    requires back == Removed(g2.pins[p].parentRefs, parent, ParentReg(ops.value, priv, p)).0
    ensures DpllGraph.OnPinRegister(g, parent, p, ops, priv, a, env)
         == (WithParent(g2, p, back, -1),
           DpllGraph.RegisterPair(g1, stop, p, ChildReg(ops.value, priv, parent), env(stop)).1)
  {
  }

  lemma OnPinSwept(g: Graph, parent: nat, p: nat, ops: PinOps, priv: nat, g1: Graph)
    requires parent in g.pins && p in g.pins
    requires g1 == WithParent(g, p, Removed(g.pins[p].parentRefs, parent, ParentReg(ops, priv, p)).0, -1)
    ensures p in g1.pins && DpllGraph.OnPinUnregister(g, parent, p, ops, priv)
         == Unlinked(g1, p, ChildReg(ops, priv, parent), g1.pins[p].dpllRefs.Keys)
  {
  }
}
