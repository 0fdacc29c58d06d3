/** Reference counts of the DPLL graph.  In runs that register no triple twice every count equals the
    length of its registration list, so a reference ends exactly with its last triple; what a
    duplicate adds to a count stays there for good. */
module DpllCounts {
  import opened Prelude
  import opened DpllGraph

  ghost predicate ExactRefs(refs: Refs) {
    forall k | k in refs :: refs[k].refcount == |refs[k].regs|
  }

  ghost predicate Exact(g: Graph) {
    forall p | p in g.pins :: ExactRefs(g.pins[p].dpllRefs) && ExactRefs(g.pins[p].parentRefs)
  }

  /** The devices on which a registration under a parent has been recorded when its walk ends. */
  function Visited(g: Graph, parent: nat, p: nat, reg: Reg, env: nat -> PairAlloc): set<nat>
    requires parent in g.pins && p in g.pins
  {
    match Next(FailingOn(g, parent, p, reg, env), 0)
    case None => g.pins[parent].dpllRefs.Keys
    case Some(stop) => Below(g.pins[parent].dpllRefs.Keys, stop)
  }

  /** The operation records a triple where it is listed already. */
  ghost predicate Duplicates(g: Graph, op: Op)
    requires Legal(g, op)
  {
    match op
    case RegisterPin(d, p, ops, priv, pair) =>
      PinRegister(g, d, p, ops, priv, pair).1 == Ok && !FreshOn(g, p, Reg(ops.value, priv, NoCookie), {d})
    case RegisterOnPin(parent, p, ops, priv, a, env) =>
      g.pins[parent].mux && OnPinOpsOk(ops)
      && var preg, reg := ParentReg(ops.value, priv, p), ChildReg(ops.value, priv, parent);
         var (prefs, e) := Added(g.pins[p].parentRefs, g.pins[parent].index, parent, preg, a);
         e == Ok && !(FreshUnder(g, parent, p, preg)
                      && FreshOn(g, p, reg, Visited(WithParent(g, p, prefs, 1), parent, p, reg, env)))
    case _ => false
  }

  ghost predicate FreshRun(g: Graph, ops: seq<Op>)
    requires LegalRun(g, ops)
    decreases |ops|
  {
    |ops| == 0 || (!Duplicates(g, ops[0]) && FreshRun(Step(g, ops[0]), ops[1..]))
  }

  lemma LinkedExact(g: Graph, p: nat, reg: Reg, ds: set<nat>)
    requires p in g.pins && Exact(g) && FreshOn(g, p, reg, ds)
    ensures Exact(Linked(g, p, reg, ds))
  {
  }

  lemma UnlinkedExact(g: Graph, p: nat, reg: Reg, ds: set<nat>)
    requires p in g.pins && Exact(g)
    ensures Exact(Unlinked(g, p, reg, ds))
  {
  }

  lemma ParentExact(g: Graph, parent: nat, p: nat, preg: Reg, a: Alloc)
    requires Inv(g) && Exact(g) && p in g.pins && parent in g.pins
    ensures ExactRefs(Removed(g.pins[p].parentRefs, parent, preg).0)
    ensures FreshUnder(g, parent, p, preg) ==>
      ExactRefs(Added(g.pins[p].parentRefs, g.pins[parent].index, parent, preg, a).0)
  {
    var refs, key := g.pins[p].parentRefs, g.pins[parent].index;
    ParentSlot(g, parent, p);
    AddedSlotted(refs, key, parent, preg, a);
    RemovedSlotted(refs, key, parent, preg);
  }

  // ---- what a duplicate leaves ---------------------------------------------------------------

  function Surplus(r: Ref): int { r.refcount - |r.regs| }

  /** p's reference to d counts more than it lists. */
  predicate Stuck(g: Graph, d: nat, p: nat) {
    d in g.devices && p in g.pins && d in g.pins[p].dpllRefs && Surplus(g.pins[p].dpllRefs[d]) > 0
  }

  lemma DropKeepsSurplus(r: Ref, reg: Reg)
    requires Surplus(r) > 0
    ensures Drop(r, reg).Some? && Surplus(Drop(r, reg).value) == Surplus(r)
  {
  }

  lemma LinkedSurplus(g: Graph, p: nat, reg: Reg, ds: set<nat>, d: nat, q: nat)
    requires p in g.pins && q in g.pins && d in g.pins[q].dpllRefs
    ensures q in Linked(g, p, reg, ds).pins && d in Linked(g, p, reg, ds).pins[q].dpllRefs
    ensures Linked(g, p, reg, ds).devices.Keys == g.devices.Keys
    ensures Surplus(Linked(g, p, reg, ds).pins[q].dpllRefs[d]) == Surplus(g.pins[q].dpllRefs[d])
      + if q == p && d in ds && reg in g.pins[q].dpllRefs[d].regs then 1 else 0
  {
  }

  lemma UnlinkedSurplus(g: Graph, p: nat, reg: Reg, ds: set<nat>, d: nat, q: nat)
    requires p in g.pins && Stuck(g, d, q)
    ensures Stuck(Unlinked(g, p, reg, ds), d, q)
    ensures Surplus(Unlinked(g, p, reg, ds).pins[q].dpllRefs[d]) == Surplus(g.pins[q].dpllRefs[d])
  {
    DropKeepsSurplus(g.pins[q].dpllRefs[d], reg);
  }

  lemma OnPinSurplus(g: Graph, parent: nat, p: nat, ops: Option<PinOps>, priv: nat, a: Alloc,
    env: nat -> PairAlloc, d: nat, q: nat)
    requires parent in g.pins && p in g.pins && Stuck(g, d, q)
    ensures var h := OnPinRegister(g, parent, p, ops, priv, a, env).0;
      Stuck(h, d, q) && Surplus(h.pins[q].dpllRefs[d]) >= Surplus(g.pins[q].dpllRefs[d])
  {
    if g.pins[parent].mux && OnPinOpsOk(ops) {
      var preg, reg := ParentReg(ops.value, priv, p), ChildReg(ops.value, priv, parent);
      var (prefs, e) := Added(g.pins[p].parentRefs, g.pins[parent].index, parent, preg, a);
      if e == Ok {
        var g1 := WithParent(g, p, prefs, 1);
        var ds := Visited(g1, parent, p, reg, env);
        LinkedSurplus(g1, p, reg, ds, d, q);
        UnlinkedSurplus(Linked(g1, p, reg, ds), p, reg, ds, d, q);
      }
    }
  }

  lemma StepSurplus(g: Graph, op: Op, d: nat, q: nat)
    requires Inv(g) && Legal(g, op) && Stuck(g, d, q)
    ensures Stuck(Step(g, op), d, q)
    ensures Surplus(Step(g, op).pins[q].dpllRefs[d]) >= Surplus(g.pins[q].dpllRefs[d])
  {
    hide Linked, Unlinked, RegisterPair, UnregisterPair, OnPinRegister, Added, Removed;
    assert DeviceHalf(g, d, q) == PinHalf(g, d, q);
    match op
    case RegisterPin(e, p, ops, priv, pair) =>
      if ops.Some? {
        RegisterPairAtomic(g, e, p, Reg(ops.value, priv, NoCookie), pair);
        LinkedSurplus(g, p, Reg(ops.value, priv, NoCookie), {e}, d, q);
      }
    case UnregisterPin(e, p, ops, priv) =>
      UnregisterPairMeaning(g, e, p, Reg(ops, priv, NoCookie));
      UnlinkedSurplus(g, p, Reg(ops, priv, NoCookie), {e}, d, q);
    case RegisterOnPin(parent, p, ops, priv, a, env) =>
      OnPinSurplus(g, parent, p, ops, priv, a, env, d, q);
    case UnregisterOnPin(parent, p, ops, priv) =>
      var g1 := WithParent(g, p, Removed(g.pins[p].parentRefs, parent, ParentReg(ops, priv, p)).0, -1);
      UnlinkedSurplus(g1, p, ChildReg(ops, priv, parent), g1.pins[p].dpllRefs.Keys, d, q);
    case _ =>
  }

  /** No lawful last put exists for the objects at the ends of such a reference; an unlawful one, which
      the code does not prevent, leaves the other end pointing to a freed object. */
  lemma NoLawfulLastPut(g: Graph, d: nat, p: nat)
    requires Inv(g) && Stuck(g, d, p)
    ensures g.pins[p].refcount == 1 ==> !Legal(g, PutPin(p)) && !Inv(PinPut(g, p))
    ensures g.devices[d].refcount <= 1 ==> !Legal(g, PutDevice(d)) && !Inv(DevicePut(g, d))
  {
    HalvesAgree(g, d, p);
    if g.pins[p].refcount == 1 {
      LastPinPutExactly(g, p);
    }
    if g.devices[d].refcount <= 1 {
      LastDevicePutExactly(g, d);
    }
  }

  /** In lawful runs, what a count has beyond its list never goes away again, and neither does the
      reference, nor the objects at its ends. */
  lemma {:induction false} SurplusStays(g: Graph, ops: seq<Op>, d: nat, q: nat)
    requires Inv(g) && LegalRun(g, ops) && Stuck(g, d, q)
    ensures Stuck(Run(g, ops), d, q)
    ensures Surplus(Run(g, ops).pins[q].dpllRefs[d]) >= Surplus(g.pins[q].dpllRefs[d])
    decreases |ops|
  {
    if |ops| > 0 {
      StepKeepsInv(g, ops[0]);
      StepSurplus(g, ops[0], d, q);
      SurplusStays(Step(g, ops[0]), ops[1..], d, q);
    }
  }

  /** A triple registered on a device where it is listed already makes the reference immortal:
      whatever is done later, any number of unregistrations included, it is still there. */
  lemma DuplicateIsForGood(g: Graph, d: nat, p: nat, ops: Option<PinOps>, priv: nat, pair: PairAlloc, later: seq<Op>)
    requires Inv(g) && d in g.devices && p in g.pins && PinRegister(g, d, p, ops, priv, pair).1 == Ok
    requires d in g.pins[p].dpllRefs && Reg(ops.value, priv, NoCookie) in g.pins[p].dpllRefs[d].regs
    requires LegalRun(PinRegister(g, d, p, ops, priv, pair).0, later)
    ensures Stuck(Run(PinRegister(g, d, p, ops, priv, pair).0, later), d, p)
  {
    var reg := Reg(ops.value, priv, NoCookie);
    StepKeepsInv(g, RegisterPin(d, p, ops, priv, pair));
    RegisterPairAtomic(g, d, p, reg, pair);
    LinkedSurplus(g, p, reg, {d}, d, p);
    assert PinTable(g, p);
    SurplusStays(PinRegister(g, d, p, ops, priv, pair).0, later, d, p);
  }

  /** The same for a registration through a parent, whether it succeeds or is taken back: every device
      it recorded where the triple was listed already keeps its reference for good. */
  lemma DuplicateUnderParentIsForGood(g: Graph, parent: nat, p: nat, ops: PinOps, priv: nat, a: Alloc,
                                      env: nat -> PairAlloc, d: nat, later: seq<Op>)
    requires Inv(g) && parent in g.pins && p in g.pins && g.pins[parent].mux && OnPinOpsOk(Some(ops))
    requires var add := Added(g.pins[p].parentRefs, g.pins[parent].index, parent, ParentReg(ops, priv, p), a);
      add.1 == Ok && d in Visited(WithParent(g, p, add.0, 1), parent, p, ChildReg(ops, priv, parent), env)
    requires d in g.pins[p].dpllRefs && ChildReg(ops, priv, parent) in g.pins[p].dpllRefs[d].regs
    requires LegalRun(OnPinRegister(g, parent, p, Some(ops), priv, a, env).0, later)
    ensures Stuck(Run(OnPinRegister(g, parent, p, Some(ops), priv, a, env).0, later), d, p)
  {
    hide Linked, Unlinked, Added, Removed, FailingOn, RegisterPair;
    var preg, reg := ParentReg(ops, priv, p), ChildReg(ops, priv, parent);
    var prefs := Added(g.pins[p].parentRefs, g.pins[parent].index, parent, preg, a).0;
    var g1 := WithParent(g, p, prefs, 1);
    var ds := Visited(g1, parent, p, reg, env);
    assert PinTable(g, p);
    assert RefOk(g.pins[p].dpllRefs[d]);
    LinkedSurplus(g1, p, reg, ds, d, p);
    UnlinkedSurplus(Linked(g1, p, reg, ds), p, reg, ds, d, p);
    OnPinKeepsInv(g, parent, p, Some(ops), priv, a, env);
    SurplusStays(OnPinRegister(g, parent, p, Some(ops), priv, a, env).0, later, d, p);
  }

  // ---- parent tables ----------------------------------------------------------------------------

  /** p's reference to its parent in slot k counts more than it lists. */
  predicate ParentStuck(g: Graph, p: nat, k: nat) {
    p in g.pins && k in g.pins[p].parentRefs && Surplus(g.pins[p].parentRefs[k]) > 0
  }

  lemma AddedSurplus(refs: Refs, key: nat, target: nat, reg: Reg, a: Alloc, k: nat)
    requires k in refs && Surplus(refs[k]) > 0
    ensures var r := Added(refs, key, target, reg, a).0; k in r && Surplus(r[k]) >= Surplus(refs[k])
  {
    assert IsNext(set j | j in refs && refs[j].target == target, 0, Lookup(refs, target));
  }

  lemma RemovedSurplus(refs: Refs, target: nat, reg: Reg, k: nat)
    requires k in refs && Surplus(refs[k]) > 0
    ensures var r := Removed(refs, target, reg).0; k in r && Surplus(r[k]) >= Surplus(refs[k])
  {
    assert IsNext(set j | j in refs && refs[j].target == target, 0, Lookup(refs, target));
    DropKeepsSurplus(refs[k], reg);
  }

  lemma LinksLeaveParents(g: Graph, p: nat, reg: Reg, ds: set<nat>, q: nat)
    requires p in g.pins && q in g.pins
    ensures q in Linked(g, p, reg, ds).pins && Linked(g, p, reg, ds).pins[q].parentRefs == g.pins[q].parentRefs
    ensures q in Unlinked(g, p, reg, ds).pins && Unlinked(g, p, reg, ds).pins[q].parentRefs == g.pins[q].parentRefs
  {
  }

  lemma OnPinParentSurplus(g: Graph, parent: nat, p: nat, ops: Option<PinOps>, priv: nat, a: Alloc,
                           env: nat -> PairAlloc, q: nat, k: nat)
    requires parent in g.pins && p in g.pins && ParentStuck(g, q, k)
    ensures var h := OnPinRegister(g, parent, p, ops, priv, a, env).0;
      ParentStuck(h, q, k) && Surplus(h.pins[q].parentRefs[k]) >= Surplus(g.pins[q].parentRefs[k])
  {
    hide Linked, Unlinked, Added, Removed, FailingOn, RegisterPair;
    if g.pins[parent].mux && OnPinOpsOk(ops) {
      var preg, reg := ParentReg(ops.value, priv, p), ChildReg(ops.value, priv, parent);
      var (prefs, e) := Added(g.pins[p].parentRefs, g.pins[parent].index, parent, preg, a);
      if e == Ok {
        var g1 := WithParent(g, p, prefs, 1);
        var ds := Visited(g1, parent, p, reg, env);
        LinksLeaveParents(g1, p, reg, ds, p);
        LinksLeaveParents(g1, p, reg, ds, q);
        LinksLeaveParents(Linked(g1, p, reg, ds), p, reg, ds, p);
        LinksLeaveParents(Linked(g1, p, reg, ds), p, reg, ds, q);
        if q == p {
          AddedSurplus(g.pins[p].parentRefs, g.pins[parent].index, parent, preg, a, k);
          RemovedSurplus(prefs, parent, preg, k);
        }
      }
    }
  }

  lemma StepParentSurplus(g: Graph, op: Op, q: nat, k: nat)
    requires Inv(g) && Legal(g, op) && ParentStuck(g, q, k) && q in Step(g, op).pins
    ensures ParentStuck(Step(g, op), q, k)
    ensures Surplus(Step(g, op).pins[q].parentRefs[k]) >= Surplus(g.pins[q].parentRefs[k])
  {
    hide Linked, Unlinked, RegisterPair, UnregisterPair, OnPinRegister, Added, Removed;
    match op
    case RegisterPin(e, p, ops, priv, pair) =>
      if ops.Some? {
        RegisterPairAtomic(g, e, p, Reg(ops.value, priv, NoCookie), pair);
        LinksLeaveParents(g, p, Reg(ops.value, priv, NoCookie), {e}, q);
      }
    case UnregisterPin(e, p, ops, priv) =>
      UnregisterPairMeaning(g, e, p, Reg(ops, priv, NoCookie));
      LinksLeaveParents(g, p, Reg(ops, priv, NoCookie), {e}, q);
    case RegisterOnPin(parent, p, ops, priv, a, env) =>
      OnPinParentSurplus(g, parent, p, ops, priv, a, env, q, k);
    case UnregisterOnPin(parent, p, ops, priv) =>
      var g1 := WithParent(g, p, Removed(g.pins[p].parentRefs, parent, ParentReg(ops, priv, p)).0, -1);
      LinksLeaveParents(g1, p, ChildReg(ops, priv, parent), g1.pins[p].dpllRefs.Keys, q);
      if q == p {
        RemovedSurplus(g.pins[p].parentRefs, parent, ParentReg(ops, priv, p), k);
      }
    case _ =>
  }

  /** Pin q lives in every state of a run. */
  ghost predicate Lives(g: Graph, ops: seq<Op>, q: nat)
    requires LegalRun(g, ops)
    decreases |ops|
  {
    q in g.pins && (|ops| > 0 ==> Lives(Step(g, ops[0]), ops[1..], q))
  }

  /** As long as a pin lives, what a count of its parent table has beyond the list stays too. */
  lemma {:induction false} ParentSurplusStays(g: Graph, ops: seq<Op>, q: nat, k: nat)
    requires Inv(g) && LegalRun(g, ops) && ParentStuck(g, q, k) && Lives(g, ops, q)
    ensures ParentStuck(Run(g, ops), q, k)
    ensures Surplus(Run(g, ops).pins[q].parentRefs[k]) >= Surplus(g.pins[q].parentRefs[k])
    decreases |ops|
  {
    if |ops| > 0 {
      assert Lives(Step(g, ops[0]), ops[1..], q);
      StepKeepsInv(g, ops[0]);
      StepParentSurplus(g, ops[0], q, k);
      ParentSurplusStays(Step(g, ops[0]), ops[1..], q, k);
    }
  }

  // ---- exact counts ---------------------------------------------------------------------------

  lemma LinkedExactly(g: Graph, p: nat, reg: Reg, ds: set<nat>)
    requires p in g.pins && Exact(g)
    ensures Exact(Linked(g, p, reg, ds)) <==> FreshOn(g, p, reg, ds)
  {
    if FreshOn(g, p, reg, ds) {
      LinkedExact(g, p, reg, ds);
    } else {
      var d :| d in ds && d in g.pins[p].dpllRefs && reg in g.pins[p].dpllRefs[d].regs;
      LinkedSurplus(g, p, reg, ds, d, p);
      assert p in Linked(g, p, reg, ds).pins;
    }
  }

  /** A triple listed under the parent already leaves a surplus there, taken back or not. */
  lemma ParentSurplus(g: Graph, parent: nat, p: nat, preg: Reg, a: Alloc)
    requires Inv(g) && Exact(g) && p in g.pins && parent in g.pins && !FreshUnder(g, parent, p, preg)
    ensures var prefs := Added(g.pins[p].parentRefs, g.pins[parent].index, parent, preg, a).0;
      !ExactRefs(prefs) && !ExactRefs(Removed(prefs, parent, preg).0)
  {
    var refs, key := g.pins[p].parentRefs, g.pins[parent].index;
    ParentSlot(g, parent, p);
    AddedSlotted(refs, key, parent, preg, a);
    var prefs := Added(refs, key, parent, preg, a).0;
    assert Slotted(prefs, parent, key);
    RemovedSlotted(prefs, key, parent, preg);
    assert prefs[key].refcount == |prefs[key].regs| + 1;
    DropKeepsSurplus(prefs[key], preg);
    assert key in Removed(prefs, parent, preg).0;
  }

  /** Of a registration under a parent: counts stay exact exactly when no triple it recorded, kept
      or taken back, was listed before. */
  lemma OnPinExactly(g: Graph, parent: nat, p: nat, ops: Option<PinOps>, priv: nat, a: Alloc, env: nat -> PairAlloc)
    requires Inv(g) && Exact(g) && parent in g.pins && p in g.pins
    ensures Exact(OnPinRegister(g, parent, p, ops, priv, a, env).0)
      <==> !Duplicates(g, RegisterOnPin(parent, p, ops, priv, a, env))
  {
    hide Linked, Unlinked, Added, Removed, FailingOn, RegisterPair, Inv, Exact;
    if g.pins[parent].mux && OnPinOpsOk(ops) {
      var preg, reg := ParentReg(ops.value, priv, p), ChildReg(ops.value, priv, parent);
      var (prefs, e) := Added(g.pins[p].parentRefs, g.pins[parent].index, parent, preg, a);
      if e == Ok {
        var g1 := WithParent(g, p, prefs, 1);
        var ds := Visited(g1, parent, p, reg, env);
        var stop := Next(FailingOn(g1, parent, p, reg, env), 0);
        if stop.None? {
          OnPinAddedExactly(g, p, parent, preg, reg, a, ds);
        } else {
          if FreshUnder(g, parent, p, preg) && FreshOn(g, p, reg, ds) {
            OnPinUndoExact(g, parent, p, ops, priv, a, env, stop.value);
          } else {
            OnPinTakenBack(g, p, parent, preg, reg, a, ds);
          }
        }
      }
    }
  }

  lemma OnPinAddedExactly(g: Graph, p: nat, parent: nat, preg: Reg, reg: Reg, a: Alloc, ds: set<nat>)
    requires Inv(g) && Exact(g) && parent in g.pins && p in g.pins
    ensures var prefs := Added(g.pins[p].parentRefs, g.pins[parent].index, parent, preg, a).0;
      Exact(Linked(WithParent(g, p, prefs, 1), p, reg, ds))
      <==> FreshUnder(g, parent, p, preg) && FreshOn(g, p, reg, ds)
  {
    var g1 := WithParent(g, p, Added(g.pins[p].parentRefs, g.pins[parent].index, parent, preg, a).0, 1);
    ParentExact(g, parent, p, preg, a);
    if FreshUnder(g, parent, p, preg) {
      LinkedExactly(g1, p, reg, ds);
    } else {
      ParentSurplus(g, parent, p, preg, a);
      assert !ExactRefs(Linked(g1, p, reg, ds).pins[p].parentRefs);
    }
  }

  lemma OnPinTakenBack(g: Graph, p: nat, parent: nat, preg: Reg, reg: Reg, a: Alloc, ds: set<nat>)
    requires Inv(g) && Exact(g) && parent in g.pins && p in g.pins
    requires !(FreshUnder(g, parent, p, preg) && FreshOn(g, p, reg, ds))
    ensures var prefs := Added(g.pins[p].parentRefs, g.pins[parent].index, parent, preg, a).0;
      var g2 := Unlinked(Linked(WithParent(g, p, prefs, 1), p, reg, ds), p, reg, ds);
      p in g2.pins && !Exact(WithParent(g2, p, Removed(g2.pins[p].parentRefs, parent, preg).0, -1))
  {
    hide Added, Removed;
    var prefs := Added(g.pins[p].parentRefs, g.pins[parent].index, parent, preg, a).0;
    var g1 := WithParent(g, p, prefs, 1);
    var g2 := Unlinked(Linked(g1, p, reg, ds), p, reg, ds);
    var h := WithParent(g2, p, Removed(g2.pins[p].parentRefs, parent, preg).0, -1);
    assert g2.pins[p].parentRefs == prefs;
    if !FreshUnder(g, parent, p, preg) {
      ParentSurplus(g, parent, p, preg, a);
      assert !ExactRefs(h.pins[p].parentRefs);
    } else {
      var d :| d in ds && d in g.pins[p].dpllRefs && reg in g.pins[p].dpllRefs[d].regs;
      assert PinTable(g, p);
      LinkedSurplus(g1, p, reg, ds, d, p);
      UnlinkedSurplus(Linked(g1, p, reg, ds), p, reg, ds, d, p);
      assert !ExactRefs(h.pins[p].dpllRefs);
    }
  }

  /** Counts stay exact exactly when the operation records no triple where it is listed already. */
  lemma StepExact(g: Graph, op: Op)
    requires Inv(g) && Exact(g) && Legal(g, op)
    ensures Exact(Step(g, op)) <==> !Duplicates(g, op)
  {
    hide Linked, Unlinked, RegisterPair, OnPinRegister, Added, Removed;
    match op
    case RegisterPin(d, p, ops, priv, pair) =>
      if ops.Some? {
        RegisterPairAtomic(g, d, p, Reg(ops.value, priv, NoCookie), pair);
        LinkedExactly(g, p, Reg(ops.value, priv, NoCookie), {d});
      }
    case UnregisterPin(d, p, ops, priv) =>
      UnregisterPairMeaning(g, d, p, Reg(ops, priv, NoCookie));
      UnlinkedExact(g, p, Reg(ops, priv, NoCookie), {d});
    case RegisterOnPin(parent, p, ops, priv, a, env) =>
      OnPinExactly(g, parent, p, ops, priv, a, env);
    case UnregisterOnPin(parent, p, ops, priv) =>
      ParentExact(g, parent, p, ParentReg(ops, priv, p), Alloc(true, true, true));
      var g1 := WithParent(g, p, Removed(g.pins[p].parentRefs, parent, ParentReg(ops, priv, p)).0, -1);
      UnlinkedExact(g1, p, ChildReg(ops, priv, parent), g1.pins[p].dpllRefs.Keys);
    case _ =>
  }

  /** Every state of a run has exact counts. */
  ghost predicate AlwaysExact(g: Graph, ops: seq<Op>)
    requires LegalRun(g, ops)
    decreases |ops|
  {
    Exact(g) && (|ops| > 0 ==> AlwaysExact(Step(g, ops[0]), ops[1..]))
  }

  lemma {:induction false} RunExact(g: Graph, ops: seq<Op>)
    requires Inv(g) && Exact(g) && LegalRun(g, ops)
    ensures AlwaysExact(g, ops) <==> FreshRun(g, ops)
    ensures FreshRun(g, ops) ==> Inv(Run(g, ops)) && Exact(Run(g, ops))
    decreases |ops|
  {
    if |ops| > 0 {
      StepKeepsInv(g, ops[0]);
      StepExact(g, ops[0]);
      if Exact(Step(g, ops[0])) {
        RunExact(Step(g, ops[0]), ops[1..]);
      }
    }
  }

  lemma DropExact(r: Ref, reg: Reg)
    requires r.refcount == |r.regs| && reg in r.regs
    ensures Drop(r, reg) == if r.regs == [reg] then None
      else Some(r.(regs := RemoveFirst(r.regs, reg), refcount := r.refcount - 1))
  {
    if r.refcount <= 1 {
      assert r.regs == [r.regs[0]];
    }
  }

  lemma OneTripleLess(g: Graph, d: nat, p: nat, reg: Reg)
    requires Inv(g) && Exact(g) && p in g.pins && d in g.devices && d in g.pins[p].dpllRefs
      && reg in g.pins[p].dpllRefs[d].regs
    ensures var h := UnregisterPair(g, d, p, reg);
            && p in h.pins && d in h.devices && DeviceHalf(h, d, p) == PinHalf(h, d, p)
            && var r := g.pins[p].dpllRefs[d];
               PinHalf(h, d, p) == if r.regs == [reg] then None
                 else Some(Link(RemoveFirst(r.regs, reg), r.refcount - 1))
  {
    hide RemoveFirst, UnregisterPair, RefOk;
    UnregisterPairMeaning(g, d, p, reg);
    UnlinkedMirror(g, p, reg, {d}, d, p);
    DropExact(g.pins[p].dpllRefs[d], reg);
  }

  /** After any run without duplicates, failures included, the count of a reference is the
      number of its triples; unregistering one of them ends the reference exactly when it was
      the only one, and otherwise takes it from list and count alone. */
  lemma ReferenceEndsWithItsLastTriple(ops: seq<Op>, d: nat, p: nat, reg: Reg)
    requires LegalRun(EMPTY, ops) && FreshRun(EMPTY, ops)
    requires var g := Run(EMPTY, ops);
      p in g.pins && d in g.devices && d in g.pins[p].dpllRefs && reg in g.pins[p].dpllRefs[d].regs
    ensures var g := Run(EMPTY, ops);
            var r, h := g.pins[p].dpllRefs[d], UnregisterPair(g, d, p, reg);
            && r.refcount == |r.regs|
            && p in h.pins && d in h.devices && DeviceHalf(h, d, p) == PinHalf(h, d, p)
            && PinHalf(h, d, p) == if r.regs == [reg] then None
              else Some(Link(RemoveFirst(r.regs, reg), r.refcount - 1))
  {
    assert Inv(EMPTY);
    RunExact(EMPTY, ops);
    OneTripleLess(Run(EMPTY, ops), d, p, reg);
  }
}
