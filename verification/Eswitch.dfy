/** Eswitch mode, virtual functions and ports of a simulated device (netdevsim/dev.c, bus.c). */
module Eswitch {
  import opened Prelude

  const VF_BASE: nat := 128
  const UINT_MAX: nat := 0xFFFF_FFFF
  const TEXT_MAX: nat := 10

  datatype Kind = Pf | Vf
  datatype Port = Port(index: nat, kind: Kind)
  datatype Mode = Legacy | Switchdev

  /** ports is the driver's list, newest first; leaked are indexes of ports that are still
      registered with devlink but no longer listed. */
  datatype State = State(
    mode: Mode, ports: seq<Port>, numVfs: nat, maxVfs: nat, vfconfigs: nat, leaked: set<nat>, failed: bool)

  /** Which port creations fail: the allocation before registration, or a later step. */
  datatype Faults = Faults(alloc: set<nat>, later: set<nat>)

  datatype Outcome = Outcome(e: Errno, s: State)

  function Indexes(ports: seq<Port>): set<nat> {
    if ports == [] then {} else {ports[0].index} + Indexes(ports[1..])
  }

  function VfIndexes(ports: seq<Port>): set<nat> {
    if ports == [] then {}
    else (if ports[0].kind == Vf then {ports[0].index} else {}) + VfIndexes(ports[1..])
  }

  function Taken(s: State, index: nat): bool {
    index in Indexes(s.ports) || index in s.leaked
  }

  // ---- ports ------------------------------------------------------------------------------

  function PortIndex(kind: Kind, i: nat): nat {
    match kind
    case Vf => VF_BASE + i
    case Pf => i
  }

  /** __nsim_dev_port_add. */
  function PortAdd(s: State, kind: Kind, i: nat, f: Faults): Outcome {
    var index := PortIndex(kind, i);
    if kind == Vf && s.numVfs == 0 then Outcome(EINVAL, s)
    else if index in f.alloc then Outcome(ENOMEM, s)
    else if Taken(s, index) then Outcome(EEXIST, s)
    else if index in f.later then Outcome(EDRIVER, s)
    else Outcome(Ok, s.(ports := [Port(index, kind)] + s.ports))
  }

  /** The list after deleting every VF port. */
  function NoVfs(ports: seq<Port>): seq<Port> {
    if ports == [] then []
    else if ports[0].kind == Vf then NoVfs(ports[1..])
    else [ports[0]] + NoVfs(ports[1..])
  }

  /** The list after deleting the first port with an index. */
  function Without(ports: seq<Port>, index: nat): seq<Port> {
    if ports == [] then []
    else if ports[0].index == index then ports[1..]
    else [ports[0]] + Without(ports[1..], index)
  }

  // ---- modes --------------------------------------------------------------------------------

  function LegacyEnable(s: State): State {
    s.(ports := NoVfs(s.ports), mode := Legacy)
  }

  /** The VF loop from i on, up to the first failure. */
  function AddVfs(s: State, i: nat, f: Faults): Outcome
    decreases s.numVfs - i
  {
    if i >= s.numVfs then Outcome(Ok, s)
    else
      var r := PortAdd(s, Vf, i, f);
      if r.e != Ok then r else AddVfs(r.s, i + 1, f)
  }

  function SwitchdevEnable(s: State, f: Faults): Outcome {
    var r := AddVfs(s, 0, f);
    if r.e == Ok then Outcome(Ok, r.s.(mode := Switchdev))
    else Outcome(r.e, r.s.(ports := NoVfs(r.s.ports)))
  }

  /** eswitch_mode_set; None stands for a mode the device does not have. */
  function ModeSet(s: State, mode: Option<Mode>, f: Faults): Outcome {
    match mode
    case None => Outcome(EINVAL, s)
    case Some(m) =>
      if m == s.mode then Outcome(Ok, s)
      else if m == Legacy then Outcome(Ok, LegacyEnable(s))
      else SwitchdevEnable(s, f)
  }

  function ConfigureVfs(s: State, n: nat, f: Faults): Outcome {
    if s.numVfs == n then Outcome(Ok, s)
    else if s.numVfs != 0 && n != 0 then Outcome(EBUSY, s)
    else if s.maxVfs < n then Outcome(ENOMEM, s)
    else
      var t := s.(numVfs := n);
      if s.mode == Legacy then Outcome(Ok, t)
      else if n == 0 then Outcome(Ok, LegacyEnable(t))
      else
        var r := SwitchdevEnable(t, f);
        if r.e == Ok then r else Outcome(r.e, r.s.(numVfs := 0))
  }

  // ---- the VF limit --------------------------------------------------------------------------

  predicate Digits(t: string) {
    t != "" && forall i | 0 <= i < |t| :: '0' <= t[i] <= '9'
  }

  function Decimal(t: string): nat
    requires forall i | 0 <= i < |t| :: '0' <= t[i] <= '9'
  {
    if t == "" then 0
    else 10 * Decimal(t[..|t| - 1]) + (t[|t| - 1] as int - '0' as int)
  }

  /** kstrtouint in base ten: an optional plus sign, digits, an optional newline. */
  function ParseUint(text: string): Option<nat> {
    var c := CString(text);
    var t := if c != "" && c[0] == '+' then c[1..] else c;
    var u := if t != "" && t[|t| - 1] == '\n' then t[..|t| - 1] else t;
    if !Digits(u) || Decimal(u) > UINT_MAX then None else Some(Decimal(u))
  }

  /** A write to max_vfs at a file position; only the first position is looked at. */
  function MaxVfsWrite(s: State, pos: nat, text: string, noMemory: bool): Outcome {
    if pos != 0 then Outcome(Ok, s)
    else if |text| >= TEXT_MAX then Outcome(ENOSPC, s)
    else
      match ParseUint(text)
      case None => Outcome(EINVAL, s)
      case Some(val) =>
        if val > UINT_MAX - VF_BASE then Outcome(ERANGE, s)
        else if noMemory then Outcome(ENOMEM, s)
        else if s.numVfs != 0 then Outcome(EBUSY, s)
        else Outcome(Ok, s.(vfconfigs := val, maxVfs := val))
  }

  // ---- reload -----------------------------------------------------------------------------------

  function Destroy(s: State): State {
    if s.failed then s
    else
      var t := s.(numVfs := 0);
      (if s.numVfs != 0 && s.mode == Switchdev then LegacyEnable(t) else t).(ports := [])
  }

  /** The PF loop of nsim_dev_port_add_all. */
  function AddPfs(s: State, i: nat, count: nat, f: Faults): Outcome
    decreases count - i
  {
    if i >= count then Outcome(Ok, s)
    else
      var r := PortAdd(s, Pf, i, f);
      if r.e != Ok then r else AddPfs(r.s, i + 1, count, f)
  }

  /** nsim_dev_reload_create starts from an empty list; early is a failure before any port, or Ok. */
  function Create(s: State, count: nat, early: Errno, f: Faults): Outcome {
    var t := s.(ports := [], leaked := s.leaked + Indexes(s.ports));
    if early != Ok then Outcome(early, t)
    else
      var r := AddPfs(t, 0, count, f);
      if r.e == Ok then r else Outcome(r.e, r.s.(ports := []))
  }

  /** The switches and failures a reload meets. */
  datatype ReloadSetup = ReloadSetup(forbidden: bool, failUp: bool, early: Errno, ports: nat)

  function Reload(s: State, u: ReloadSetup, f: Faults): Outcome {
    if u.forbidden then Outcome(EOPNOTSUPP, s)
    else if u.failUp then Outcome(EINVAL, Destroy(s).(failed := true))
    else
      var r := Create(Destroy(s), u.ports, u.early, f);
      Outcome(r.e, r.s.(failed := r.e != Ok))
  }

  // ---- operations and runs --------------------------------------------------------------------------

  datatype Op =
    | NewPort(index: nat)
    | DelPort(index: nat)
    | SetVfs(n: nat)
    | SetMode(mode: Option<Mode>)
    | SetMaxVfs(pos: nat, text: string, noMemory: bool)
    | DoReload(setup: ReloadSetup)

  function Step(s: State, op: Op, f: Faults): Outcome {
    match op
    case NewPort(i) => if i in Indexes(s.ports) then Outcome(EEXIST, s) else PortAdd(s, Pf, i, f)
    case DelPort(i) => if i in Indexes(s.ports) then Outcome(Ok, s.(ports := Without(s.ports, i)))
      else Outcome(ENOENT, s)
    case SetVfs(n) => ConfigureVfs(s, n, f)
    case SetMode(m) => ModeSet(s, m, f)
    case SetMaxVfs(pos, text, noMemory) => MaxVfsWrite(s, pos, text, noMemory)
    case DoReload(u) => Reload(s, u, f)
  }

  datatype Call = Call(op: Op, f: Faults)

  function Run(s: State, calls: seq<Call>): State
    decreases |calls|
  {
    if calls == [] then s else Run(Step(s, calls[0].op, calls[0].f).s, calls[1..])
  }

  // ---- invariants --------------------------------------------------------------------------------------

  predicate Distinct(ports: seq<Port>) {
    ports == [] || (ports[0].index !in Indexes(ports[1..]) && Distinct(ports[1..]))
  }

  /** VF ports i to j - 1, newest first. */
  function VfList(i: nat, j: nat): seq<Port>
    decreases j - i
  {
    if i >= j then [] else VfList(i + 1, j) + [Port(VF_BASE + i, Vf)]
  }

  /** The indexes VF ports should have in a state. */
  function Wanted(s: State): set<nat> {
    if s.mode == Legacy then {} else Indexes(VfList(0, s.numVfs))
  }

  /** Kept by every step whatever happens. */
  predicate Sound(s: State) {
    && Distinct(s.ports)
    && Indexes(s.ports) !! s.leaked
    && VfIndexes(s.ports) <= Wanted(s)
    && s.numVfs <= s.maxVfs == s.vfconfigs <= UINT_MAX - VF_BASE
  }

  /** The eswitch invariant: moreover no VF port is missing. */
  predicate Inv(s: State) {
    Sound(s) && VfIndexes(s.ports) == Wanted(s)
  }

  // ---- lists of ports ------------------------------------------------------------------------------------

  lemma {:induction false} VfsAreIndexes(ports: seq<Port>)
    ensures VfIndexes(ports) <= Indexes(ports)
  {
    if ports != [] {
      VfsAreIndexes(ports[1..]);
    }
  }

  lemma {:induction false} NoVfsMeaning(ports: seq<Port>)
    ensures VfIndexes(NoVfs(ports)) == {} && Indexes(NoVfs(ports)) <= Indexes(ports)
    ensures Distinct(ports) ==> Distinct(NoVfs(ports)) && Indexes(NoVfs(ports)) == Indexes(ports) - VfIndexes(ports)
    ensures VfIndexes(ports) == {} ==> NoVfs(ports) == ports
  {
    if ports != [] {
      NoVfsMeaning(ports[1..]);
      VfsAreIndexes(ports[1..]);
      if ports[0].kind == Vf {
        assert ports[0].index in VfIndexes(ports);
      } else {
        var r := NoVfs(ports[1..]);
        assert NoVfs(ports) == [ports[0]] + r && NoVfs(ports)[1..] == r;
      }
    }
  }

  lemma {:induction false} AppendIndexes(a: seq<Port>, b: seq<Port>)
    ensures Indexes(a + b) == Indexes(a) + Indexes(b)
  {
    if a == [] {
      assert a + b == b;
    } else {
      assert (a + b)[1..] == a[1..] + b;
      AppendIndexes(a[1..], b);
    }
  }

  lemma {:induction false} AppendVfIndexes(a: seq<Port>, b: seq<Port>)
    ensures VfIndexes(a + b) == VfIndexes(a) + VfIndexes(b)
  {
    if a == [] {
      assert a + b == b;
    } else {
      assert (a + b)[1..] == a[1..] + b;
      AppendVfIndexes(a[1..], b);
    }
  }

  lemma {:induction false} AppendNoVfs(a: seq<Port>, b: seq<Port>)
    ensures NoVfs(a + b) == NoVfs(a) + NoVfs(b)
  {
    if a == [] {
      assert a + b == b;
    } else {
      assert (a + b)[1..] == a[1..] + b;
      AppendNoVfs(a[1..], b);
    }
  }

  lemma {:induction false} AppendDistinct(a: seq<Port>, b: seq<Port>)
    ensures Distinct(a + b) <==> Distinct(a) && Distinct(b) && Indexes(a) !! Indexes(b)
  {
    if a == [] {
      assert a + b == b;
    } else {
      assert (a + b)[1..] == a[1..] + b && (a + b)[0] == a[0];
      AppendIndexes(a[1..], b);
      AppendDistinct(a[1..], b);
    }
  }

  lemma AppendMeaning(a: seq<Port>, b: seq<Port>)
    ensures Indexes(a + b) == Indexes(a) + Indexes(b)
    ensures VfIndexes(a + b) == VfIndexes(a) + VfIndexes(b)
    ensures NoVfs(a + b) == NoVfs(a) + NoVfs(b)
    ensures Distinct(a + b) <==> Distinct(a) && Distinct(b) && Indexes(a) !! Indexes(b)
  {
    AppendIndexes(a, b);
    AppendVfIndexes(a, b);
    AppendNoVfs(a, b);
    AppendDistinct(a, b);
  }

  lemma OnePort(p: Port)
    ensures Indexes([p]) == {p.index} && VfIndexes([p]) == (if p.kind == Vf then {p.index} else {})
    ensures NoVfs([p]) == (if p.kind == Vf then [] else [p]) && Distinct([p])
  {
    assert [p][1..] == [];
  }

  lemma {:induction false} WithoutMeaning(ports: seq<Port>, index: nat)
    requires Distinct(ports)
    ensures Distinct(Without(ports, index))
    ensures Indexes(Without(ports, index)) == Indexes(ports) - {index}
    ensures VfIndexes(Without(ports, index)) == VfIndexes(ports) - {index}
  {
    if ports != [] {
      VfsAreIndexes(ports[1..]);
      if ports[0].index != index {
        WithoutMeaning(ports[1..], index);
        var r := Without(ports[1..], index);
        assert Without(ports, index) == [ports[0]] + r && Without(ports, index)[1..] == r;
      }
    }
  }

  /** What follows a stretch of ports without the index decides about it. */
  lemma {:induction false} SkipsPorts(ports: seq<Port>, i: nat, index: nat)
    requires i <= |ports| && forall k | 0 <= k < i :: ports[k].index != index
    ensures index in Indexes(ports) <==> index in Indexes(ports[i..])
    ensures Without(ports, index) == ports[..i] + Without(ports[i..], index)
    decreases i
  {
    if i > 0 {
      SkipsPorts(ports[1..], i - 1, index);
      assert ports[1..][i - 1..] == ports[i..];
      assert [ports[0]] + ports[1..][..i - 1] == ports[..i];
    } else {
      assert ports[0..] == ports;
    }
  }

  lemma {:induction false} VfListMeaning(i: nat, j: nat)
    ensures forall k :: k in Indexes(VfList(i, j)) <==> VF_BASE + i <= k < VF_BASE + j
    ensures VfIndexes(VfList(i, j)) == Indexes(VfList(i, j))
    ensures NoVfs(VfList(i, j)) == [] && Distinct(VfList(i, j))
    decreases j - i
  {
    if i < j {
      VfListMeaning(i + 1, j);
      OnePort(Port(VF_BASE + i, Vf));
      AppendMeaning(VfList(i + 1, j), [Port(VF_BASE + i, Vf)]);
    }
  }

  // ---- enabling ---------------------------------------------------------------------------------------------

  /** VF port k can be created. */
  predicate Creatable(s: State, k: nat, f: Faults) {
    VF_BASE + k !in f.alloc && VF_BASE + k !in f.later && !Taken(s, VF_BASE + k)
  }

  ghost predicate AllCreatable(s: State, i: nat, j: nat, f: Faults) {
    forall k {:trigger Creatable(s, k, f)} | i <= k < j :: Creatable(s, k, f)
  }

  /** The state once VF port i exists. */
  function With(s: State, i: nat): State {
    s.(ports := [Port(VF_BASE + i, Vf)] + s.ports)
  }

  lemma PortAddExact(s: State, i: nat, f: Faults)
    requires i < s.numVfs
    ensures PortAdd(s, Vf, i, f).e == Ok <==> Creatable(s, i, f)
    ensures PortAdd(s, Vf, i, f).s == if Creatable(s, i, f) then With(s, i) else s
  {
  }

  lemma CreatableAfter(s: State, i: nat, f: Faults)
    ensures forall k {:trigger Creatable(s, k, f)} {:trigger Creatable(With(s, i), k, f)} | i < k ::
              Creatable(With(s, i), k, f) == Creatable(s, k, f)
  {
    assert With(s, i).ports[1..] == s.ports;
  }

  /** How many VF ports the loop adds. */
  function Added(s: State, i: nat, f: Faults): nat
    decreases s.numVfs - i
  {
    if i >= s.numVfs || !Creatable(s, i, f) then i else Added(With(s, i), i + 1, f)
  }

  /** The loop adds exactly the ports before the first one that cannot be created. */
  lemma {:induction false} AddVfsMeaning(s: State, i: nat, f: Faults)
    requires i <= s.numVfs
    ensures var r, j := AddVfs(s, i, f), Added(s, i, f);
            && i <= j <= s.numVfs && r.s == s.(ports := VfList(i, j) + s.ports)
            && AllCreatable(s, i, j, f)
            && (r.e == Ok <==> j == s.numVfs)
            && (r.e != Ok ==> !Creatable(s, j, f))
    decreases s.numVfs - i
  {
    hide PortAdd, Creatable;
    if i == s.numVfs {
      assert VfList(i, i) + s.ports == s.ports;
    } else {
      PortAddExact(s, i, f);
      if Creatable(s, i, f) {
        var t := With(s, i);
        AddVfsMeaning(t, i + 1, f);
        CreatableAfter(s, i, f);
        var j := Added(t, i + 1, f);
        assert VfList(i, j) + s.ports == VfList(i + 1, j) + t.ports;
      } else {
        assert VfList(i, i) + s.ports == s.ports;
      }
    }
  }

  /** Enabling from a state without VF ports is all or nothing, and succeeds exactly when every
      VF port can be created. */
  lemma EnableExact(s: State, f: Faults)
    requires VfIndexes(s.ports) == {}
    ensures var r := SwitchdevEnable(s, f);
            && (r.e == Ok <==> AllCreatable(s, 0, s.numVfs, f))
            && (r.e == Ok ==> r.s == s.(mode := Switchdev, ports := VfList(0, s.numVfs) + s.ports))
            && (r.e != Ok ==> r.s == s)
  {
    AddVfsMeaning(s, 0, f);
    var j := Added(s, 0, f);
    AppendMeaning(VfList(0, j), s.ports);
    VfListMeaning(0, j);
    NoVfsMeaning(s.ports);
    assert [] + s.ports == s.ports;
  }

  lemma EnableSound(s: State, f: Faults)
    requires VfIndexes(s.ports) == {} && Sound(s.(mode := Legacy)) && SwitchdevEnable(s, f).e == Ok
    ensures Inv(SwitchdevEnable(s, f).s)
  {
    EnableExact(s, f);
    var l := VfList(0, s.numVfs);
    VfListMeaning(0, s.numVfs);
    AppendMeaning(l, s.ports);
    forall k | k in Indexes(l) ensures !Taken(s, k) {
      assert Creatable(s, k - VF_BASE, f);
    }
  }

  // ---- every step -------------------------------------------------------------------------------------------

  lemma OneMorePort(s: State, i: nat)
    ensures var p := [Port(i, Pf)] + s.ports;
            Indexes(p) == {i} + Indexes(s.ports) && VfIndexes(p) == VfIndexes(s.ports)
            && (Distinct(p) <==> Distinct(s.ports) && i !in Indexes(s.ports))
              && NoVfs(p) == [Port(i, Pf)] + NoVfs(s.ports)
  {
    assert ([Port(i, Pf)] + s.ports)[1..] == s.ports;
  }

  lemma PfAddSound(s: State, i: nat, f: Faults)
    requires Sound(s)
    ensures var r := PortAdd(s, Pf, i, f);
            Sound(r.s) && r.s == s.(ports := r.s.ports) && VfIndexes(r.s.ports) == VfIndexes(s.ports)
  {
    OneMorePort(s, i);
  }

  lemma {:induction false} AddPfsSound(s: State, i: nat, count: nat, f: Faults)
    requires Sound(s)
    ensures var r := AddPfs(s, i, count, f);
            Sound(r.s) && r.s == s.(ports := r.s.ports) && VfIndexes(r.s.ports) == VfIndexes(s.ports)
    decreases count - i
  {
    hide PortAdd, Sound, VfIndexes;
    if i < count {
      PfAddSound(s, i, f);
      var r := PortAdd(s, Pf, i, f);
      if r.e == Ok {
        AddPfsSound(r.s, i + 1, count, f);
      }
    }
  }

  /** What a reload leaves, when it gets as far as destroying. */
  lemma ReloadMeaning(s: State, u: ReloadSetup, f: Faults)
    requires Sound(s) && !u.forbidden
    ensures var r := Reload(s, u, f).s;
            && Sound(r) && r.mode == Destroy(s).mode && r.numVfs == Destroy(s).numVfs
            && (u.failUp && s.failed ==> r == s)
            && (!(u.failUp && s.failed) ==> VfIndexes(r.ports) == {})
  {
    var d := Destroy(s);
    NoVfsMeaning(s.ports);
    VfListMeaning(0, 0);
    if !u.failUp {
      var t := d.(ports := [], leaked := d.leaked + Indexes(d.ports));
      assert Sound(t);
      AddPfsSound(t, 0, u.ports, f);
    }
  }

  lemma SetVfsSound(s: State, n: nat, f: Faults)
    requires Sound(s)
    ensures var r := ConfigureVfs(s, n, f);
            Sound(r.s) && (Inv(s) ==> Inv(r.s)) && (r.e != Ok ==> r.s == s) && NoVfs(r.s.ports) == NoVfs(s.ports)
  {
    NoVfsMeaning(s.ports);
    NoVfsMeaning(NoVfs(s.ports));
    VfListMeaning(0, 0);
    var t := s.(numVfs := n);
    if s.mode == Switchdev && s.numVfs == 0 && n != 0 && n <= s.maxVfs {
      EnableExact(t, f);
      if SwitchdevEnable(t, f).e == Ok {
        EnableSound(t, f);
        AppendMeaning(VfList(0, n), s.ports);
        VfListMeaning(0, n);
        assert [] + NoVfs(s.ports) == NoVfs(s.ports);
      }
    }
  }

  lemma SetModeSound(s: State, m: Option<Mode>, f: Faults)
    requires Sound(s)
    ensures var r := ModeSet(s, m, f);
            Sound(r.s) && (Inv(s) ==> Inv(r.s)) && (r.e != Ok ==> r.s == s) && NoVfs(r.s.ports) == NoVfs(s.ports)
  {
    NoVfsMeaning(s.ports);
    NoVfsMeaning(NoVfs(s.ports));
    if m == Some(Switchdev) && s.mode == Legacy {
      EnableExact(s, f);
      if SwitchdevEnable(s, f).e == Ok {
        EnableSound(s, f);
        AppendMeaning(VfList(0, s.numVfs), s.ports);
        VfListMeaning(0, s.numVfs);
        assert [] + NoVfs(s.ports) == NoVfs(s.ports);
      }
    }
  }

  lemma PortOpsSound(s: State, op: Op, f: Faults)
    requires Sound(s) && (op.NewPort? || op.DelPort?)
    ensures var r := Step(s, op, f);
            && Sound(r.s) && (r.e != Ok ==> r.s == s) && r.s == s.(ports := r.s.ports)
            && VfIndexes(r.s.ports) == if op.DelPort? then VfIndexes(s.ports) - {op.index} else VfIndexes(s.ports)
  {
    VfsAreIndexes(s.ports);
    OneMorePort(s, op.index);
    WithoutMeaning(s.ports, op.index);
  }

  /** Ports stay distinct, VF ports stay within what mode and VF count allow, and the VF count
      within the configured limit, whatever is called and whatever fails. */
  lemma StepSound(s: State, op: Op, f: Faults)
    requires Sound(s)
    ensures Sound(Step(s, op, f).s)
  {
    match op
    case NewPort(_) => PortOpsSound(s, op, f);
    case DelPort(_) => PortOpsSound(s, op, f);
    case SetVfs(n) => SetVfsSound(s, n, f);
    case SetMode(m) => SetModeSound(s, m, f);
    case SetMaxVfs(pos, text, noMemory) => MaxVfsWithinRange(s, pos, text, noMemory);
    case DoReload(u) =>
      if !u.forbidden {
        ReloadMeaning(s, u, f);
      }
  }

  /** The two calls that lose VF ports: a port is looked up by index alone, so a VF port can be
      deleted as if it were a physical one; and a reload after a failed one forgets its ports. */
  predicate Breaks(s: State, op: Op) {
    match op
    case DelPort(i) => s.mode == Switchdev && VF_BASE <= i < VF_BASE + s.numVfs
    case DoReload(u) => s.failed && s.mode == Switchdev && s.numVfs > 0 && !u.forbidden && !u.failUp
    case _ => false
  }

  /** The eswitch invariant survives exactly the other calls. */
  lemma StepKeepsInv(s: State, op: Op, f: Faults)
    requires Inv(s)
    ensures Inv(Step(s, op, f).s) <==> !Breaks(s, op)
  {
    StepSound(s, op, f);
    VfListMeaning(0, s.numVfs);
    VfListMeaning(0, 0);
    match op
    case NewPort(_) => PortOpsSound(s, op, f);
    case DelPort(i) =>
      PortOpsSound(s, op, f);
    case SetVfs(n) => SetVfsSound(s, n, f);
    case SetMode(m) => SetModeSound(s, m, f);
    case SetMaxVfs(_, _, _) =>
    case DoReload(u) =>
      if !u.forbidden {
        ReloadMeaning(s, u, f);
        if s.numVfs > 0 {
          assert VF_BASE in Indexes(VfList(0, s.numVfs));
        }
      }
  }

  /** Every call but a reload is all or nothing. */
  lemma FailureChangesNothing(s: State, op: Op, f: Faults)
    requires Sound(s) && !op.DoReload? && Step(s, op, f).e != Ok
    ensures Step(s, op, f).s == s
  {
    match op
    case NewPort(_) => PortOpsSound(s, op, f);
    case DelPort(_) => PortOpsSound(s, op, f);
    case SetVfs(n) => SetVfsSound(s, n, f);
    case SetMode(m) => SetModeSound(s, m, f);
    case SetMaxVfs(_, _, _) =>
  }

  /** Mode and VF changes never touch physical ports or their order. */
  lemma PhysicalPortsStay(s: State, op: Op, f: Faults)
    requires Sound(s) && (op.SetVfs? || op.SetMode? || op.SetMaxVfs?)
    ensures NoVfs(Step(s, op, f).s.ports) == NoVfs(s.ports)
  {
    match op
    case SetVfs(n) => SetVfsSound(s, n, f);
    case SetMode(m) => SetModeSound(s, m, f);
    case SetMaxVfs(_, _, _) =>
  }

  // ---- runs -------------------------------------------------------------------------------------------------

  lemma {:induction false} RunSound(s: State, calls: seq<Call>)
    requires Sound(s)
    ensures Sound(Run(s, calls))
    decreases |calls|
  {
    if calls != [] {
      StepSound(s, calls[0].op, calls[0].f);
      RunSound(Step(s, calls[0].op, calls[0].f).s, calls[1..]);
    }
  }

  /** Every state of a run satisfies the invariant. */
  predicate AlwaysInv(s: State, calls: seq<Call>)
    decreases |calls|
  {
    Inv(s) && (calls != [] ==> AlwaysInv(Step(s, calls[0].op, calls[0].f).s, calls[1..]))
  }

  /** No call of a run is one of the two that lose VF ports. */
  predicate Tame(s: State, calls: seq<Call>)
    decreases |calls|
  {
    calls != [] ==> !Breaks(s, calls[0].op) && Tame(Step(s, calls[0].op, calls[0].f).s, calls[1..])
  }

  lemma {:induction false} InvariantExactly(s: State, calls: seq<Call>)
    requires Inv(s)
    ensures AlwaysInv(s, calls) <==> Tame(s, calls)
    decreases |calls|
  {
    if calls != [] {
      var c := calls[0];
      StepKeepsInv(s, c.op, c.f);
      if !Breaks(s, c.op) {
        InvariantExactly(Step(s, c.op, c.f).s, calls[1..]);
      } else {
        assert !Inv(Step(s, c.op, c.f).s);
      }
    }
  }

  /** In legacy mode nothing is missing, so switching to it repairs any run's state. */
  lemma LegacyRepairs(s: State, calls: seq<Call>, f: Faults)
    requires Sound(s)
    ensures Inv(Step(Run(s, calls), SetMode(Some(Legacy)), f).s)
  {
    RunSound(s, calls);
    SetModeSound(Run(s, calls), Some(Legacy), f);
  }

  /** At every point of a run the VF number of a VF port indexes the VF configurations, and its
      port index fits 32 bits. */
  lemma VfPortsAreConfigured(s: State, calls: seq<Call>, index: nat)
    requires Sound(s) && index in VfIndexes(Run(s, calls).ports)
    ensures VF_BASE <= index <= UINT_MAX && index - VF_BASE < Run(s, calls).numVfs <= Run(s, calls).vfconfigs
  {
    RunSound(s, calls);
    VfListMeaning(0, Run(s, calls).numVfs);
  }

  /** In switchdev mode the VF ports of an invariant state are exactly 128 to 128 + numVfs - 1, in legacy
      mode there are none. */
  lemma InvMeans(s: State, k: nat)
    requires Inv(s)
    ensures k in VfIndexes(s.ports) <==> s.mode == Switchdev && 128 <= k < 128 + s.numVfs
    ensures s.numVfs <= s.maxVfs == s.vfconfigs <= 0xFFFF_FFFF - 128
  {
    VfListMeaning(0, s.numVfs);
  }

  // ---- single calls, spelled out --------------------------------------------------------------------

  /** When a physical port is created, why not otherwise, and what a creation and a deletion do. */
  lemma PortCallsExactly(s: State, i: nat, f: Faults)
    ensures var r := Step(s, NewPort(i), f);
      && r.e == (if i in Indexes(s.ports) then EEXIST else if i in f.alloc then ENOMEM
                 else if i in s.leaked then EEXIST else if i in f.later then EDRIVER else Ok)
      && r.s == if r.e == Ok then s.(ports := [Port(i, Pf)] + s.ports) else s
    ensures var r := Step(s, DelPort(i), f);
      && r.e == (if i in Indexes(s.ports) then Ok else ENOENT)
      && (Distinct(s.ports) && r.e == Ok ==>
            Indexes(r.s.ports) == Indexes(s.ports) - {i} && r.s == s.(ports := r.s.ports))
      && (r.e != Ok ==> r.s == s)
  {
    if Distinct(s.ports) {
      WithoutMeaning(s.ports, i);
    }
  }

  /** How a change of the VF count is refused, and what it leaves in legacy mode. */
  lemma SetVfsExactly(s: State, n: nat, f: Faults)
    ensures var r := Step(s, SetVfs(n), f);
      && (s.numVfs == n ==> r == Outcome(Ok, s))
      && (s.numVfs != n && s.numVfs != 0 && n != 0 ==> r == Outcome(EBUSY, s))
      && (s.numVfs == 0 && n > s.maxVfs ==> r == Outcome(ENOMEM, s))
      && (s.numVfs == 0 && n <= s.maxVfs && s.mode == Legacy ==> r == Outcome(Ok, s.(numVfs := n)))
      && (s.numVfs != 0 && n == 0 ==> r.e == Ok && r.s.numVfs == 0 && r.s.mode == Legacy)
    ensures Step(s, SetMode(None), f) == Outcome(EINVAL, s)
    ensures Step(s, SetMode(Some(s.mode)), f) == Outcome(Ok, s)
    ensures Step(s, SetMode(Some(Legacy)), f).e == Ok && Step(s, SetMode(Some(Legacy)), f).s.mode == Legacy
  {
  }

  /** Physical ports 0 to n - 1, newest first. */
  function PfList(n: nat): seq<Port> {
    if n == 0 then [] else [Port(n - 1, Pf)] + PfList(n - 1)
  }

  lemma {:induction false} AddPfsMeaning(s: State, i: nat, count: nat, f: Faults)
    requires i <= count && s.ports == PfList(i) && AddPfs(s, i, count, f).e == Ok
    ensures AddPfs(s, i, count, f).s == s.(ports := PfList(count))
    decreases count - i
  {
    if i < count {
      AddPfsMeaning(PortAdd(s, Pf, i, f).s, i + 1, count, f);
    }
  }

  /** A reload that succeeds leaves exactly the configured physical ports, and after an earlier success no
      VFs; one that is forbidden changes nothing. */
  lemma ReloadExactly(s: State, u: ReloadSetup, f: Faults)
    ensures var r := Step(s, DoReload(u), f);
      && (u.forbidden ==> r == Outcome(EOPNOTSUPP, s))
      && (!u.forbidden && u.failUp ==> r.e == EINVAL && r.s.failed)
      && (r.e == Ok ==> r.s.ports == PfList(u.ports) && !r.s.failed && (s.failed || r.s.numVfs == 0))
      && (!u.forbidden ==> (r.e == Ok <==> !r.s.failed))
  {
    if !u.forbidden && !u.failUp {
      var d := Destroy(s);
      var t := d.(ports := [], leaked := d.leaked + Indexes(d.ports));
      if u.early == Ok && AddPfs(t, 0, u.ports, f).e == Ok {
        AddPfsMeaning(t, 0, u.ports, f);
      }
    }
  }

  // ---- pairs of calls -----------------------------------------------------------------------------------------

  /** Enabling switchdev and returning to legacy restores the device. */
  lemma ModeRoundTrip(s: State, f: Faults, g: Faults)
    requires Sound(s) && s.mode == Legacy
    ensures var r := Step(s, SetMode(Some(Switchdev)), f).s;
            Step(r, SetMode(Some(Legacy)), g).s == s
  {
    EnableExact(s, f);
    NoVfsMeaning(s.ports);
    AppendMeaning(VfList(0, s.numVfs), s.ports);
    VfListMeaning(0, s.numVfs);
    assert [] + s.ports == s.ports;
  }

  /** Configuring VFs and removing them restores the device exactly when the mode was legacy;
      removal in switchdev mode leaves legacy mode behind. */
  lemma VfRoundTrip(s: State, n: nat, f: Faults, g: Faults)
    requires Sound(s) && s.numVfs == 0 < n && Step(s, SetVfs(n), f).e == Ok
    ensures var r := Step(Step(s, SetVfs(n), f).s, SetVfs(0), g).s;
            r == s.(mode := Legacy) && (r == s <==> s.mode == Legacy)
  {
    var t := s.(numVfs := n);
    VfListMeaning(0, 0);
    NoVfsMeaning(s.ports);
    if s.mode == Switchdev {
      EnableExact(t, f);
      AppendMeaning(VfList(0, n), s.ports);
      VfListMeaning(0, n);
      assert [] + s.ports == s.ports;
    }
  }

  /** VFs first or mode first: the second call succeeds in both orders or in neither, and the
      successes end in the same state. */
  lemma EnableOrder(s: State, n: nat, f: Faults)
    requires Sound(s) && s.mode == Legacy && s.numVfs == 0 && n <= s.maxVfs
    ensures var a := Step(Step(s, SetVfs(n), f).s, SetMode(Some(Switchdev)), f);
            var b := Step(Step(s, SetMode(Some(Switchdev)), f).s, SetVfs(n), f);
            (a.e == Ok <==> b.e == Ok) && (a.e == Ok ==> a.s == b.s)
  {
    EnableExact(s, f);
    assert VfList(0, 0) + s.ports == s.ports;
    var v := s.(numVfs := n);
    EnableExact(v, f);
    var m := s.(mode := Switchdev);
    assert Step(s, SetMode(Some(Switchdev)), f).s == m;
    if n > 0 {
      var w := m.(numVfs := n);
      EnableExact(w, f);
      assert forall k :: Creatable(v, k, f) == Creatable(w, k, f);
    }
  }

  // ---- the VF limit ---------------------------------------------------------------------------------------------

  function Pow10(n: nat): nat {
    if n == 0 then 1 else 10 * Pow10(n - 1)
  }

  lemma {:induction false} DecimalBound(t: string)
    requires forall i | 0 <= i < |t| :: '0' <= t[i] <= '9'
    ensures Decimal(t) < Pow10(|t|)
    decreases |t|
  {
    if t != "" {
      DecimalBound(t[..|t| - 1]);
    }
  }

  lemma {:induction false} Pow10Grows(m: nat, n: nat)
    requires m <= n
    ensures Pow10(m) <= Pow10(n)
    decreases n
  {
    if m < n {
      Pow10Grows(m, n - 1);
    }
  }

  /** A number in decimal, without leading zeros. */
  function Print(n: nat): (t: string)
    ensures t != "" && forall i | 0 <= i < |t| :: '0' <= t[i] <= '9'
  {
    (if n < 10 then "" else Print(n / 10)) + ['0' + (n % 10) as char]
  }

  lemma {:induction false} PrintedIsRead(n: nat)
    ensures Decimal(Print(n)) == n
  {
    var t := Print(n);
    assert t[..|t| - 1] == if n < 10 then "" else Print(n / 10);
    assert t[|t| - 1] == '0' + (n % 10) as char;
    if n >= 10 {
      PrintedIsRead(n / 10);
    }
  }

  lemma DigitsAreParsed(p: string, newline: bool)
    requires Digits(p) && Decimal(p) <= UINT_MAX
    ensures ParseUint(p + if newline then "\n" else "") == Some(Decimal(p))
  {
    hide Decimal;
    var text := p + if newline then "\n" else "";
    assert '\0' !in text;
    CStringEndsAtNul(text, "");
    assert text[0] == p[0] != '+';
    if newline {
      assert text[|text| - 1] == '\n' && text[..|text| - 1] == p;
    } else {
      assert text == p && p[|p| - 1] != '\n';
    }
  }

  /** A number of at most nine digits, with or without a newline, becomes the limit and the number of VF
      configurations when no VF is configured. */
  lemma LimitBecomesNumber(s: State, n: nat, newline: bool)
    requires |Print(n) + if newline then "\n" else ""| < 10
    ensures var r := MaxVfsWrite(s, 0, Print(n) + if newline then "\n" else "", false);
      r == if s.numVfs != 0 then Outcome(EBUSY, s) else Outcome(Ok, s.(maxVfs := n, vfconfigs := n))
  {
    hide Decimal, Print, ParseUint;
    PrintedIsRead(n);
    DecimalBound(Print(n));
    Pow10Grows(|Print(n)|, 9);
    assert Pow10(9) == 1_000_000_000;
    DigitsAreParsed(Print(n), newline);
  }

  /** What is refused, and how: too long a text, one that is not a number, and want of memory. */
  lemma LimitRefusals(s: State, text: string, noMemory: bool)
    ensures |text| >= 10 ==> MaxVfsWrite(s, 0, text, noMemory) == Outcome(ENOSPC, s)
    ensures |text| < 10 && (exists i :: 0 <= i < |CString(text)| - 1 && CString(text)[i] !in "+0123456789") ==>
      MaxVfsWrite(s, 0, text, noMemory) == Outcome(EINVAL, s)
    ensures |text| < 10 && CString(text) in {"", "\n", "+", "+\n"} ==>
      MaxVfsWrite(s, 0, text, noMemory) == Outcome(EINVAL, s)
    ensures MaxVfsWrite(s, 0, text, noMemory).e != Ok ==> MaxVfsWrite(s, 0, text, noMemory).s == s
    ensures noMemory ==> MaxVfsWrite(s, 0, text, noMemory).e != Ok
  {
    var c := CString(text);
    if i :| 0 <= i < |c| - 1 && c[i] !in "+0123456789" {
      var t := if c != "" && c[0] == '+' then c[1..] else c;
      var u := if t != "" && t[|t| - 1] == '\n' then t[..|t| - 1] else t;
      var j := if c[0] == '+' then i - 1 else i;
      assert u[j] == c[i];
      assert !('0' <= c[i] <= '9') by {
        if '0' <= c[i] <= '9' {
          DigitIsListed(c[i]);
        }
      }
      assert !Digits(u);
    }
  }

  lemma DigitIsListed(c: char)
    requires '0' <= c <= '9'
    ensures c in "+0123456789"
  {
    var k := c as int - '0' as int;
    assert "+0123456789"[k + 1] == c;
  }

  /** The range check never fires: the text that reaches it has at most nine digits. */
  lemma MaxVfsWithinRange(s: State, pos: nat, text: string, noMemory: bool)
    ensures var r := MaxVfsWrite(s, pos, text, noMemory);
            r.e != ERANGE && (r.s != s ==> r.s.maxVfs < 1_000_000_000)
  {
    if |text| < TEXT_MAX && ParseUint(text).Some? {
      var c := CString(text);
      var t := if c != "" && c[0] == '+' then c[1..] else c;
      var u := if t != "" && t[|t| - 1] == '\n' then t[..|t| - 1] else t;
      DecimalBound(u);
      Pow10Grows(|u|, 9);
      assert Pow10(9) == 1_000_000_000;
    }
  }

  // ---- what goes wrong -------------------------------------------------------------------------------------------

  const NO_FAULTS: Faults := Faults({}, {})
  const PROBED: State := State(Legacy, [Port(0, Pf)], 0, 4, 4, {}, false)

  /** Three ordinary calls leave switchdev mode with a VF but without its port. */
  lemma VfPortDeletedAsPhysical()
    ensures var calls := [Call(SetVfs(1), NO_FAULTS), Call(SetMode(Some(Switchdev)), NO_FAULTS),
                          Call(DelPort(VF_BASE), NO_FAULTS)];
            var s := Run(PROBED, calls);
            Inv(PROBED) && s.mode == Switchdev && s.numVfs == 1 && VfIndexes(s.ports) == {} && !Inv(s)
  {
    var s1 := Step(PROBED, SetVfs(1), NO_FAULTS).s;
    var s2 := Step(s1, SetMode(Some(Switchdev)), NO_FAULTS).s;
    var s3 := Step(s2, DelPort(VF_BASE), NO_FAULTS).s;
    assert PROBED.ports[1..] == [];
    assert Inv(PROBED);
    assert s1 == PROBED.(numVfs := 1);
    EnableExact(s1, NO_FAULTS);
    VfListMeaning(0, 1);
    assert forall k | 0 <= k < 1 :: Creatable(s1, k, NO_FAULTS);
    SetModeSound(s1, Some(Switchdev), NO_FAULTS);
    PortOpsSound(s2, DelPort(VF_BASE), NO_FAULTS);
    assert VF_BASE in Indexes(VfList(0, 1));
    var c1, c2, c3 := Call(SetVfs(1), NO_FAULTS), Call(SetMode(Some(Switchdev)), NO_FAULTS),
      Call(DelPort(VF_BASE), NO_FAULTS);
    assert [c1, c2, c3][1..] == [c2, c3] && [c2, c3][1..] == [c3] && [c3][1..] == [];
    assert Run(PROBED, [c1, c2, c3]) == Run(s1, [c2, c3]) == Run(s2, [c3]) == Run(s3, []) == s3;
  }

  /** After a failed reload, two ordinary calls give switchdev mode a VF port, which the next reload
      forgets while the VF stays. */
  lemma VfPortForgottenByReload(u: ReloadSetup, v: ReloadSetup)
    requires !u.forbidden && u.failUp && !v.forbidden && !v.failUp
    ensures var calls := [Call(DoReload(u), NO_FAULTS), Call(SetMode(Some(Switchdev)), NO_FAULTS),
                          Call(SetVfs(1), NO_FAULTS), Call(DoReload(v), NO_FAULTS)];
            var s := Run(PROBED, calls);
            !Tame(PROBED, calls) && s.mode == Switchdev && s.numVfs == 1 && VfIndexes(s.ports) == {} && !Inv(s)
  {
    var c1, c2 := Call(DoReload(u), NO_FAULTS), Call(SetMode(Some(Switchdev)), NO_FAULTS);
    var c3, c4 := Call(SetVfs(1), NO_FAULTS), Call(DoReload(v), NO_FAULTS);
    assert PROBED.ports[1..] == [] && Inv(PROBED);
    var s1 := Step(PROBED, c1.op, c1.f).s;
    assert s1 == State(Legacy, [], 0, 4, 4, {}, true);
    EnableExact(s1, NO_FAULTS);
    var s2 := Step(s1, c2.op, c2.f).s;
    assert s2 == s1.(mode := Switchdev) by {
      assert VfList(0, 0) + [] == [];
    }
    EnableExact(s2.(numVfs := 1), NO_FAULTS);
    assert forall k | 0 <= k < 1 :: Creatable(s2.(numVfs := 1), k, NO_FAULTS);
    var s3 := Step(s2, c3.op, c3.f).s;
    assert s3.failed && s3.mode == Switchdev && s3.numVfs == 1;
    SetVfsSound(s2, 1, NO_FAULTS);
    StepKeepsInv(s3, c4.op, c4.f);
    ReloadMeaning(s3, v, NO_FAULTS);
    var s4 := Step(s3, c4.op, c4.f).s;
    assert [c1, c2, c3, c4][1..] == [c2, c3, c4] && [c2, c3, c4][1..] == [c3, c4] && [c3, c4][1..] == [c4]
      && [c4][1..] == [];
    assert Run(PROBED, [c1, c2, c3, c4]) == Run(s1, [c2, c3, c4]) == Run(s2, [c3, c4]) == Run(s3, [c4])
      == Run(s4, []) == s4;
    assert !Tame(s3, [c4]) && !Tame(s2, [c3, c4]) && !Tame(s1, [c2, c3, c4]);
  }

  /** A physical port on a VF's index makes every enabling of that VF fail. */
  lemma PhysicalPortBlocksVf(s: State, k: nat, f: Faults)
    requires Sound(s) && s.mode == Legacy && k < s.numVfs && VF_BASE + k in Indexes(s.ports)
    ensures Step(s, SetMode(Some(Switchdev)), f).e != Ok && Step(s, SetMode(Some(Switchdev)), f).s == s
  {
    EnableExact(s, f);
    assert !Creatable(s, k, f);
  }
}
