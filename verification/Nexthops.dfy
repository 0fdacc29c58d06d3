/** Nexthop accounting of netdevsim (netdevsim/fib.c).  Nexthop events are handled under a lock,
    one at a time; each object is charged as many units as it occupies, unit by unit. */
module Nexthops {
  import opened Prelude

  datatype Nexthop = Nexthop(occ: nat, resilient: bool)
  type Table = map<nat, Nexthop>

  /** What the kernel announces. */
  datatype Info = Single | Group(weights: seq<nat>) | ResilientTable(buckets: nat) | OtherKind

  datatype Event = Replace(id: nat, info: Info, alloc: bool, insert: bool) | Delete(id: nat)

  datatype State = State(num: nat, max: nat, table: Table)

  // ---- sums ---------------------------------------------------------------------------

  function Sum(s: seq<nat>): nat {
    if s == [] then 0 else Sum(s[..|s| - 1]) + s[|s| - 1]
  }

  /** The units the table occupies. */
  ghost function Occupied(t: Table): nat
    decreases t.Keys
  {
    if t == map[] then 0 else
    var k :| k in t;
    t[k].occ + Occupied(t - {k})
  }

  lemma {:induction false} OccupiedWithout(t: Table, k: nat)
    requires k in t
    ensures Occupied(t) == t[k].occ + Occupied(t - {k})
    decreases t.Keys
  {
    var j :| j in t && Occupied(t) == t[j].occ + Occupied(t - {j});
    if j != k {
      OccupiedWithout(t - {j}, k);
      OccupiedWithout(t - {k}, j);
      assert t - {j} - {k} == t - {k} - {j};
    }
  }

  lemma OccupiedWith(t: Table, k: nat, n: Nexthop)
    requires k !in t
    ensures Occupied(t[k := n]) == n.occ + Occupied(t)
  {
    OccupiedWithout(t[k := n], k);
    assert t[k := n] - {k} == t;
  }

  lemma OccupiedReplaced(t: Table, k: nat, n: Nexthop)
    requires k in t
    ensures Occupied(t[k := n]) + t[k].occ == Occupied(t) + n.occ
  {
    OccupiedWithout(t, k);
    OccupiedWithout(t[k := n], k);
    assert t[k := n] - {k} == t - {k};
  }

  // ---- one event ------------------------------------------------------------------------

  /** The units an announced object occupies; None for kinds the driver does not know. */
  function Units(info: Info): Option<nat> {
    match info
    case Single => Some(1)
    case Group(weights) => Some(Sum(weights))
    case ResilientTable(buckets) => Some(buckets)
    case OtherKind => None
  }

  lemma {:induction false} SumSplits(a: seq<nat>, b: seq<nat>)
    ensures Sum(a + b) == Sum(a) + Sum(b)
  {
    if b == [] {
      assert a + b == a;
    } else {
      var n := |b| - 1;
      assert (a + b)[..|a| + n] == a + b[..n] && (a + b)[|a| + n] == b[n];
      SumSplits(a, b[..n]);
    }
  }

  /** A single nexthop takes one unit, a group the weights of its members together, a resilient group its
      buckets; other kinds are not known. */
  lemma UnitsAre(w: nat, a: seq<nat>, b: seq<nat>, n: nat)
    ensures Units(Single) == Some(1) && Units(Group([])) == Some(0) && Units(Group([w])) == Some(w)
    ensures Units(Group(a + b)) == Some(Units(Group(a)).value + Units(Group(b)).value)
    ensures Units(ResilientTable(n)) == Some(n) && Units(OtherKind) == None
  {
    SumSplits(a, b);
    assert [w][..0] == [];
  }

  const INT_LIMIT: nat := 0x8000_0000
  const U64_LIMIT: nat := 0x1_0000_0000_0000_0000

  /** The charging loop counts in a C int: past 2^31 units the counter turns negative, compares
      as a huge unsigned number and ends the loop. */
  function Steps(occ: nat): nat {
    if occ <= INT_LIMIT then occ else INT_LIMIT
  }

  /** Objects small enough for that, which leaves out only the last 2^31 values of a u64. */
  predicate Sized(info: Info) {
    Units(info).Some? ==> Units(info).value <= U64_LIMIT - INT_LIMIT
  }

  /** Units are given back in one subtraction, or not at all when there are fewer. */
  function GivenBack(num: nat, occ: nat): nat {
    if num >= occ then num - occ else num
  }

  /** The new object is charged before the one it replaces is given back, so a replacement needs
      room for both. */
  function Handled(s: State, e: Event): (State, Errno) {
    match e
    case Delete(id) =>
      if id !in s.table then (s, Ok)
      else (s.(num := GivenBack(s.num, s.table[id].occ), table := s.table - {id}), Ok)
    case Replace(id, info, alloc, insert) =>
      if !alloc then (s, ENOMEM)
      else if Units(info).None? then (s, EOPNOTSUPP)
      else
        var occ := Units(info).value;
        if s.num + Steps(occ) > s.max then (s, ENOSPC)
        else if !insert then (s.(num := GivenBack(s.num + Steps(occ), occ)), ENOMEM)
        else (s.(num := GivenBack(s.num + Steps(occ), if id in s.table then s.table[id].occ else 0),
                 table := s.table[id := Nexthop(occ, info.ResilientTable?)]), Ok)
  }

  /** The counter is what the table occupies, within the limit. */
  ghost predicate Conserved(s: State) {
    s.num == Occupied(s.table) <= s.max
  }

  /** An object of more than 2^31 units under a limit that has room for 2^31 more. */
  predicate Overflows(s: State, e: Event) {
    e.Replace? && e.alloc && Units(e.info).Some? && Units(e.info).value > INT_LIMIT && s.num + INT_LIMIT <= s.max
  }

  /** Which events succeed, how the others are refused, and what the table is afterwards. */
  lemma HandledExactly(s: State, e: Event)
    ensures var (t, err) := Handled(s, e);
      && (e.Delete? ==> err == Ok && t.table == s.table - {e.id})
      && (e.Replace? ==>
            err == (if !e.alloc then ENOMEM else if e.info == OtherKind then EOPNOTSUPP
                    else if s.num + Steps(Units(e.info).value) > s.max then ENOSPC
                    else if e.insert then Ok else ENOMEM)
            && t.table == if err == Ok
              then s.table[e.id := Nexthop(Units(e.info).value, e.info.ResilientTable?)] else s.table)
  {
    assert e.id !in s.table ==> s.table - {e.id} == s.table;
  }

  /** Every event, refused and failed ones included, keeps the counter at what the table occupies,
      exactly unless it overflows the charging loop; a failed one changes nothing, and what is given
      back never exceeds the counter. */
  lemma EventConserves(s: State, e: Event)
    requires Conserved(s)
    ensures Conserved(Handled(s, e).0) <==> !Overflows(s, e)
    ensures e.id in s.table ==> s.table[e.id].occ <= s.num
    ensures Handled(s, e).1 != Ok && !Overflows(s, e) ==> Handled(s, e).0 == s
  {
    if e.id in s.table {
      OccupiedWithout(s.table, e.id);
    }
    match e
    case Delete(id) =>
    case Replace(id, info, _, _) =>
      if Units(info).Some? {
        var n := Nexthop(Units(info).value, info.ResilientTable?);
        if id in s.table {
          OccupiedReplaced(s.table, id, n);
        } else {
          OccupiedWith(s.table, id, n);
        }
      }
  }

  lemma {:induction false} SumOfEqual(n: nat, w: nat)
    ensures Sum(seq(n, _ => w)) == n * w
  {
    if n > 0 {
      assert seq(n, _ => w)[..n - 1] == seq(n - 1, _ => w);
      SumOfEqual(n - 1, w);
    }
  }

  /** The smallest group of 16-bit counts and weights that overflows, where the limit leaves room.
      Whether the kernel announces groups of that size is outside the repository. */
  lemma GroupCanOverflow(s: State, id: nat)
    requires s.num + INT_LIMIT <= s.max
    ensures Overflows(s, Replace(id, Group(seq(0x8001, _ => 0x1_0000)), true, true))
    ensures !Overflows(s, Replace(id, Group(seq(0x8000, _ => 0x1_0000)), true, true))
  {
    SumOfEqual(0x8001, 0x1_0000);
    SumOfEqual(0x8000, 0x1_0000);
  }

  function Run(s: State, es: seq<Event>): State
    decreases |es|
  {
    if es == [] then s else Run(Handled(s, es[0]).0, es[1..])
  }

  /** No event of a run overflows. */
  predicate Tame(s: State, es: seq<Event>)
    decreases |es|
  {
    es != [] ==> !Overflows(s, es[0]) && Tame(Handled(s, es[0]).0, es[1..])
  }

  /** Every state of a run is conserved. */
  ghost predicate AlwaysConserved(s: State, es: seq<Event>)
    decreases |es|
  {
    Conserved(s) && (es != [] ==> AlwaysConserved(Handled(s, es[0]).0, es[1..]))
  }

  lemma {:induction false} RunConserves(s: State, es: seq<Event>)
    requires Conserved(s)
    ensures AlwaysConserved(s, es) <==> Tame(s, es)
    ensures Tame(s, es) ==> Conserved(Run(s, es))
    ensures Run(s, es).max == s.max
    decreases |es|
  {
    if es != [] {
      EventConserves(s, es[0]);
      var t := Handled(s, es[0]).0;
      if Conserved(t) {
        RunConserves(t, es[1..]);
      } else {
        MaxStays(t, es[1..]);
      }
    }
  }

  lemma {:induction false} MaxStays(s: State, es: seq<Event>)
    ensures Run(s, es).max == s.max
    decreases |es|
  {
    if es != [] {
      MaxStays(Handled(s, es[0]).0, es[1..]);
    }
  }

  /** Over every run from the empty table that overflows nowhere, a replacement that meets no
      failure is refused exactly when the table as it stands and the new object together exceed the
      limit, even where the table with the old object gone would not. */
  lemma RefusedExactly(max: nat, es: seq<Event>, id: nat, info: Info)
    requires Units(info).Some? && Units(info).value <= INT_LIMIT && Tame(State(0, max, map[]), es)
    ensures var s := Run(State(0, max, map[]), es);
      && (Handled(s, Replace(id, info, true, true)).1 == ENOSPC <==> Occupied(s.table) + Units(info).value > max)
      && (Handled(s, Replace(id, info, true, true)).1 == Ok ==>
            var t := Handled(s, Replace(id, info, true, true)).0;
            t.table == s.table[id := Nexthop(Units(info).value, info.ResilientTable?)] && t.num == Occupied(t.table))
  {
    var s := Run(State(0, max, map[]), es);
    RunConserves(State(0, max, map[]), es);
    EventConserves(s, Replace(id, info, true, true));
  }

  // ---- the driver --------------------------------------------------------------------------

  class NexthopData {
    const max: nat
    var num: nat
    var table: Table

    constructor (max: nat)
      ensures View() == State(0, max, map[])
    {
      this.max, num, table := max, 0, map[];
    }

    function View(): State
      reads this
    {
      State(num, max, table)
    }

    /** nsim_nexthop_account: charges unit by unit and takes the units back when one is refused. */
    method Account(occ: nat, add: bool) returns (e: Errno)
      requires add ==> num <= max && occ <= U64_LIMIT - INT_LIMIT
      modifies this`num
      ensures add ==> e == if old(num) + Steps(occ) <= max then Ok else ENOSPC
      ensures add ==> num == if e == Ok then old(num) + Steps(occ) else old(num)
      ensures !add ==> e == (if occ <= old(num) then Ok else EINVAL) && num == GivenBack(old(num), occ)
    {
      if add {
        var i: int := 0;
        ghost var n := 0;
        while (if i < 0 then i + U64_LIMIT else i) < occ
          invariant n <= Steps(occ) && num == old(num) + n <= max
          invariant i == if n < INT_LIMIT then n else -(INT_LIMIT as int)
          decreases INT_LIMIT - n
        {
          if num == max {
            num := num - i;
            return ENOSPC;
          }
          num := num + 1;
          i := if i == INT_LIMIT - 1 then -(INT_LIMIT as int) else i + 1;
          n := n + 1;
        }
      } else {
        if occ > num {
          return EINVAL;
        }
        num := num - occ;
      }
      return Ok;
    }

    /** nsim_nexthop_create: the weights of a group are added up in a loop. */
    method Create(info: Info) returns (n: Option<Nexthop>)
      ensures Units(info).None? <==> n.None?
      ensures n.Some? ==> n.value == Nexthop(Units(info).value, info.ResilientTable?)
    {
      var occ := 0;
      var resilient := false;
      match info {
        case Single => occ := 1;
        case Group(weights) =>
          for i := 0 to |weights|
            invariant occ == Sum(weights[..i])
          {
            assert weights[..i + 1][..i] == weights[..i];
            occ := occ + weights[i];
          }
          assert weights[..|weights|] == weights;
        case ResilientTable(buckets) =>
          occ := buckets;
          resilient := true;
        case OtherKind => return None;
      }
      return Some(Nexthop(occ, resilient));
    }

    /** nsim_nexthop_insert with nsim_nexthop_add and nsim_nexthop_replace, and nsim_nexthop_remove. */
    method HandleEvent(e: Event) returns (err: Errno)
      requires num <= max && (e.Replace? ==> Sized(e.info))
      modifies this
      ensures (View(), err) == Handled(old(View()), e)
      ensures old(Conserved(View()) && !Overflows(View(), e)) ==> Conserved(View())
    {
      if Conserved(View()) {
        EventConserves(View(), e);
      }
      match e {
        case Delete(id) =>
          if id !in table {
            return Ok;
          }
          var n := table[id];
          table := table - {id};
          var _ := Account(n.occ, false);
          err := Ok;
        case Replace(id, info, alloc, insert) =>
          if !alloc {
            return ENOMEM;
          }
          var n := Create(info);
          if n.None? {
            return EOPNOTSUPP;
          }
          err := Account(n.value.occ, true);
          if err != Ok {
            return;
          }
          if !insert {
            var _ := Account(n.value.occ, false);
            return ENOMEM;
          }
          if id in table {
            var prev := table[id];
            table := table[id := n.value];
            var _ := Account(prev.occ, false);
          } else {
            table := table[id := n.value];
          }
      }
    }
  }
}
