/** The simulated device in place: its port list, VF count and mode, changed by loops with
    rollback. */
module EswitchDev {
  import opened Prelude
  import E = Eswitch

  class NsimDev {
    var mode: E.Mode
    var ports: seq<E.Port>
    var numVfs: nat
    var maxVfs: nat
    var vfconfigs: nat
    var failed: bool
    /** Indexes devlink still knows although the driver lists them no more. */
    var leaked: set<nat>

    ghost function View(): E.State
      reads this
    {
      E.State(mode, ports, numVfs, maxVfs, vfconfigs, leaked, failed)
    }

    /** __nsim_dev_port_lookup: the first listed port with an index, whatever its kind. */
    method Lookup(index: nat) returns (at: Option<nat>)
      ensures at.None? <==> index !in E.Indexes(ports)
      ensures at.Some? ==> at.value < |ports| && E.Without(ports, index) == ports[..at.value] + ports[at.value + 1..]
    {
      for i := 0 to |ports|
        invariant forall k | 0 <= k < i :: ports[k].index != index
      {
        if ports[i].index == index {
          E.SkipsPorts(ports, i, index);
          return Some(i);
        }
      }
      E.SkipsPorts(ports, |ports|, index);
      return None;
    }

    /** __nsim_dev_port_add; devlink refuses an index it knows. */
    method PortAdd(kind: E.Kind, i: nat, f: E.Faults) returns (e: Errno)
      modifies this`ports
      ensures E.Outcome(e, View()) == E.PortAdd(old(View()), kind, i, f)
    {
      if kind == E.Vf && numVfs == 0 {
        return EINVAL;
      }
      var index := E.PortIndex(kind, i);
      if index in f.alloc {
        return ENOMEM;
      }
      if index in E.Indexes(ports) || index in leaked {
        return EEXIST;
      }
      if index in f.later {
        return EDRIVER;
      }
      ports := [E.Port(index, kind)] + ports;
      return Ok;
    }

    /** The safe list walk that deletes every VF port. */
    method DelVfs()
      modifies this`ports
      ensures ports == E.NoVfs(old(ports))
    {
      var i := 0;
      while i < |ports|
        invariant i <= |ports|
        invariant E.NoVfs(old(ports)) == ports[..i] + E.NoVfs(ports[i..])
        decreases |ports| - i
      {
        assert ports[i..][1..] == ports[i + 1..] && ports[i..][0] == ports[i];
        if ports[i].kind == E.Vf {
          ghost var head, rest := ports[..i], ports[i + 1..];
          ports := ports[..i] + ports[i + 1..];
          assert ports[..i] == head && ports[i..] == rest;
        } else {
          assert ports[..i + 1] == ports[..i] + [ports[i]];
          i := i + 1;
        }
      }
      assert ports[..i] == ports;
    }

    /** nsim_esw_legacy_enable. */
    method LegacyEnable()
      modifies this`ports, this`mode
      ensures View() == E.LegacyEnable(old(View()))
    {
      DelVfs();
      mode := E.Legacy;
    }

    /** nsim_esw_switchdev_enable: on any failure every VF port is deleted again. */
    method SwitchdevEnable(f: E.Faults) returns (e: Errno)
      modifies this`ports, this`mode
      ensures E.Outcome(e, View()) == E.SwitchdevEnable(old(View()), f)
    {
      for i := 0 to numVfs
        invariant E.AddVfs(View(), i, f) == E.AddVfs(old(View()), 0, f)
        invariant mode == old(mode)
      {
        e := PortAdd(E.Vf, i, f);
        if e != Ok {
          DelVfs();
          return;
        }
      }
      mode := E.Switchdev;
      return Ok;
    }

    /** nsim_devlink_eswitch_mode_set. */
    method ModeSet(m: Option<E.Mode>, f: E.Faults) returns (e: Errno)
      modifies this`ports, this`mode
      ensures E.Outcome(e, View()) == E.Step(old(View()), E.SetMode(m), f)
    {
      if m == Some(mode) {
        return Ok;
      }
      if m == Some(E.Legacy) {
        LegacyEnable();
        return Ok;
      }
      if m == Some(E.Switchdev) {
        e := SwitchdevEnable(f);
        return;
      }
      return EINVAL;
    }

    /** nsim_drv_configure_vfs. */
    method ConfigureVfs(n: nat, f: E.Faults) returns (e: Errno)
      modifies this`ports, this`mode, this`numVfs
      ensures E.Outcome(e, View()) == E.Step(old(View()), E.SetVfs(n), f)
    {
      if numVfs == n {
        return Ok;
      }
      if numVfs != 0 && n != 0 {
        return EBUSY;
      }
      if maxVfs < n {
        return ENOMEM;
      }
      numVfs := n;
      if mode == E.Switchdev {
        if n != 0 {
          e := SwitchdevEnable(f);
          if e != Ok {
            numVfs := 0;
          }
          return;
        }
        LegacyEnable();
      }
      return Ok;
    }

    /** nsim_bus_dev_max_vfs_write. */
    method MaxVfsWrite(pos: nat, text: string, noMemory: bool) returns (e: Errno)
      modifies this`maxVfs, this`vfconfigs
      ensures E.Outcome(e, View()) == E.Step(old(View()), E.SetMaxVfs(pos, text, noMemory), E.NO_FAULTS)
    {
      if pos != 0 {
        return Ok;
      }
      if |text| >= E.TEXT_MAX {
        return ENOSPC;
      }
      var val := E.ParseUint(text);
      if val.None? {
        return EINVAL;
      }
      if val.value > E.UINT_MAX - E.VF_BASE {
        return ERANGE;
      }
      if noMemory {
        return ENOMEM;
      }
      if numVfs != 0 {
        return EBUSY;
      }
      vfconfigs, maxVfs := val.value, val.value;
      return Ok;
    }

    /** nsim_drv_port_add, as new_port calls it. */
    method NewPort(index: nat, f: E.Faults) returns (e: Errno)
      modifies this`ports
      ensures E.Outcome(e, View()) == E.Step(old(View()), E.NewPort(index), f)
    {
      var at := Lookup(index);
      if at.Some? {
        return EEXIST;
      }
      e := PortAdd(E.Pf, index, f);
    }

    /** nsim_drv_port_del, as del_port calls it. */
    method DelPort(index: nat) returns (e: Errno)
      modifies this`ports
      ensures E.Outcome(e, View()) == E.Step(old(View()), E.DelPort(index), E.NO_FAULTS)
    {
      var at := Lookup(index);
      if at.None? {
        return ENOENT;
      }
      ports := ports[..at.value] + ports[at.value + 1..];
      return Ok;
    }

    /** nsim_dev_reload_destroy. */
    method ReloadDestroy()
      modifies this`ports, this`mode, this`numVfs
      ensures View() == E.Destroy(old(View()))
    {
      if failed {
        return;
      }
      if numVfs != 0 {
        numVfs := 0;
        if mode == E.Switchdev {
          LegacyEnable();
        }
      }
      ports := [];
    }

    /** nsim_dev_port_add_all. */
    method PortAddAll(count: nat, f: E.Faults) returns (e: Errno)
      modifies this`ports
      ensures var r := E.AddPfs(old(View()), 0, count, f);
              e == r.e && View() == if e == Ok then r.s else r.s.(ports := [])
    {
      for i := 0 to count
        invariant E.AddPfs(View(), i, count, f) == E.AddPfs(old(View()), 0, count, f)
      {
        e := PortAdd(E.Pf, i, f);
        if e != Ok {
          ports := [];
          return;
        }
      }
      return Ok;
    }

    /** reload_down, reload_up and nsim_dev_reload_create. */
    method Reload(u: E.ReloadSetup, f: E.Faults) returns (e: Errno)
      modifies this
      ensures E.Outcome(e, View()) == E.Step(old(View()), E.DoReload(u), f)
    {
      if u.forbidden {
        return EOPNOTSUPP;
      }
      ReloadDestroy();
      if u.failUp {
        failed := true;
        return EINVAL;
      }
      leaked := leaked + E.Indexes(ports);
      ports := [];
      if u.early != Ok {
        e := u.early;
      } else {
        e := PortAddAll(u.ports, f);
      }
      failed := e != Ok;
    }
  }
}
