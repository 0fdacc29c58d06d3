/** Small shared vocabulary: options, octets, error codes, C strings and ordered iteration over
    index sets (the kernel's xarray loops). */
module Prelude {

  datatype Option<+T> = None | Some(value: T)

  /** An octet on the wire. */
  type Byte = x: int | 0 <= x < 256

  datatype Errno = Ok | EINVAL | ENOMEM | EBUSY | ENOSPC | EEXIST | ENOENT | ERANGE | EOPNOTSUPP | EMSGSIZE
    | ENODEV | EFAULT | ERESTARTSYS | EDRIVER

  /** A buffer read as a C string: everything before the first NUL. */
  function CString(text: string): (r: string)
    ensures r <= text
  {
    if text == "" || text[0] == '\0' then "" else [text[0]] + CString(text[1..])
  }

  lemma {:induction false} CStringEndsAtNul(text: string, rest: string)
    requires '\0' !in text
    ensures CString(text) == text && CString(text + "\0" + rest) == text
  {
    if text == "" {
      assert text + "\0" + rest == "\0" + rest;
    } else {
      assert (text + "\0" + rest)[1..] == text[1..] + "\0" + rest;
      CStringEndsAtNul(text[1..], rest);
    }
  }

  /** The bytes of a text. */
  function Ascii(text: string): (r: seq<Byte>)
    ensures |r| == |text|
  {
    seq(|text|, i requires 0 <= i < |text| => text[i] as int % 256)
  }

  /** k is the least member of s that is at least from. */
  predicate IsLeast(s: set<nat>, from: nat, k: nat) {
    k in s && from <= k && forall j | j in s && from <= j :: k <= j
  }

  /** True when r is what xa_find(…, from) returns: the least present index that is at least from. */
  ghost predicate IsNext(s: set<nat>, from: nat, r: Option<nat>) {
    match r
    case None => forall k | k in s :: k < from
    case Some(k) => IsLeast(s, from, k)
  }

  lemma {:induction false} LeastExists(s: set<nat>, from: nat, k: nat)
    requires k in s && from <= k
    ensures exists m :: IsLeast(s, from, m)
    decreases k
  {
    if j :| j in s && from <= j < k {
      LeastExists(s, from, j);
    } else {
      assert IsLeast(s, from, k);
    }
  }

  /** The least index of s that is at least from (xa_find / xa_find_after). */
  function Next(s: set<nat>, from: nat): (r: Option<nat>)
    ensures IsNext(s, from, r)
  {
    if k :| k in s && from <= k then
      LeastExists(s, from, k);
      var m :| IsLeast(s, from, m);
      Some(m)
    else
      None
  }

  lemma FirstIn(s: set<nat>)
    requires s != {}
    ensures Next(s, 0).Some? && Next(s, 0).value in s
  {
    var k :| k in s;
    assert IsNext(s, 0, Next(s, 0));
  }

  lemma NextIs(s: set<nat>, from: nat, r: Option<nat>)
    requires IsNext(s, from, r)
    ensures Next(s, from) == r
  {
    var n := Next(s, from);
    if n.Some? && r.Some? {
      assert n.value <= r.value && r.value <= n.value;
    }
  }

  /** The indices of s below a bound: what an ascending loop has already visited. */
  function Below(s: set<nat>, bound: nat): set<nat> {
    set k | k in s && k < bound
  }

  /** The indices of s still to be visited from a bound on. */
  function From(s: set<nat>, bound: nat): set<nat> {
    set k | k in s && bound <= k
  }

  /** An ascending walk that stands at bound lo and finds i next has visited Below(s, lo);
      after i it stands at i + 1. */
  lemma WalkStep(s: set<nat>, lo: nat, i: nat)
    requires Next(s, lo) == Some(i)
    ensures lo <= i && i in s && i !in Below(s, lo)
    ensures Below(s, i) == Below(s, lo)
    ensures Below(s, i + 1) == Below(s, lo) + {i}
    ensures From(s, i + 1) < From(s, lo)
  {
    assert IsNext(s, lo, Some(i));
    assert i in From(s, lo) && i !in From(s, i + 1);
  }

  lemma WalkEnd(s: set<nat>, lo: nat)
    requires Next(s, lo) == None
    ensures Below(s, lo) == s
  {
    assert IsNext(s, lo, None);
  }

  lemma WalkStart(s: set<nat>)
    ensures Below(s, 0) == {}
  {
  }

  /** The walk meets the first member of a subset: it is the subset's least. */
  lemma WalkMeets(s: set<nat>, lo: nat, i: nat, sub: set<nat>)
    requires Next(s, lo) == Some(i) && sub <= s && Below(s, lo) !! sub && i in sub
    ensures Next(sub, 0) == Some(i)
  {
    WalkStep(s, lo, i);
    NextIs(sub, 0, Some(i));
  }

  lemma WalkPasses(s: set<nat>, lo: nat, i: nat, sub: set<nat>)
    requires Next(s, lo) == Some(i) && Below(s, lo) !! sub && i !in sub
    ensures Below(s, i + 1) !! sub
  {
    WalkStep(s, lo, i);
  }

  lemma WalkMissed(s: set<nat>, lo: nat, sub: set<nat>)
    requires Next(s, lo) == None && sub <= s && Below(s, lo) !! sub
    ensures Next(sub, 0) == None
  {
    WalkEnd(s, lo);
    NextIs(sub, 0, None);
  }
}
