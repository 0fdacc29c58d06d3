/** UBX frames (netdevsim/dpll.c): checksum, framing, the scan that splits a stream back into
    frames (scripts/test-gnss-ubx.sh), and the key-value scan of CFG-VALSET. */
module Ubx {
  import opened Prelude

  const SYNC1: Byte := 0xB5
  const SYNC2: Byte := 0x62
  const CLASS_CFG: Byte := 0x06
  const CFG_VALSET: Byte := 0x8A
  const HDR_LEN: nat := 6
  const CK_LEN: nat := 2
  const OVERHEAD: nat := HDR_LEN + CK_LEN
  const VALSET_HDR_LEN: nat := 4
  const KEY_INFIL_NCNOTHRS: nat := 0x201100aa

  // ---- checksum -------------------------------------------------------------------------

  function Sum(d: seq<Byte>): nat {
    if d == [] then 0 else d[0] + Sum(d[1..])
  }

  /** Every byte weighted with the number of bytes from it to the end. */
  function Weighted(d: seq<Byte>): nat {
    if d == [] then 0 else |d| * d[0] + Weighted(d[1..])
  }

  function Checksum(d: seq<Byte>): (Byte, Byte) {
    (Sum(d) % 256, Weighted(d) % 256)
  }

  lemma {:induction false} SumSnoc(d: seq<Byte>, x: Byte)
    ensures Sum(d + [x]) == Sum(d) + x
    ensures Weighted(d + [x]) == Weighted(d) + Sum(d) + x
  {
    if d == [] {
      assert d + [x] == [x] && [x][1..] == [];
    } else {
      assert (d + [x])[1..] == d[1..] + [x];
      SumSnoc(d[1..], x);
      assert (|d| + 1) * d[0] == |d| * d[0] + d[0];
    }
  }

  /** ubx_checksum, with its two running bytes. */
  method ComputeChecksum(data: seq<Byte>) returns (a: Byte, b: Byte)
    ensures (a, b) == Checksum(data)
  {
    a, b := 0, 0;
    for i := 0 to |data|
      invariant a == Sum(data[..i]) % 256 && b == Weighted(data[..i]) % 256
    {
      assert data[..i + 1] == data[..i] + [data[i]];
      SumSnoc(data[..i], data[i]);
      ResidueAdds(Sum(data[..i]), data[i]);
      a := (a as int + data[i]) % 256;
      ResidueAdds(Weighted(data[..i]), a);
      ResidueAdds(Sum(data[..i]) + data[i], Weighted(data[..i]));
      b := (b as int + a) % 256;
    }
    assert data[..|data|] == data;
  }

  lemma ResidueAdds(x: int, y: int)
    ensures (x % 256 + y) % 256 == (x + y) % 256
  {
  }

  lemma {:induction false} SumUpdate(d: seq<Byte>, i: nat, x: Byte)
    requires i < |d|
    ensures Sum(d[i := x]) == Sum(d) - d[i] + x
    ensures Weighted(d[i := x]) == Weighted(d) + (|d| - i) * (x - d[i])
  {
    if i == 0 {
      assert d[0 := x][1..] == d[1..];
      assert |d| * x == |d| * d[0] + |d| * (x - d[0]);
    } else {
      assert d[i := x][1..] == d[1..][i - 1 := x];
      SumUpdate(d[1..], i - 1, x);
    }
  }

  lemma SameResidue(x: int, y: int)
    ensures x % 256 == y % 256 <==> (x - y) % 256 == 0
  {
  }

  /** Every change of a single byte changes the checksum. */
  lemma ByteChangeDetected(d: seq<Byte>, i: nat, x: Byte)
    requires i < |d| && x != d[i]
    ensures Checksum(d[i := x]).0 != Checksum(d).0
  {
    SumUpdate(d, i, x);
    SameResidue(Sum(d[i := x]), Sum(d));
  }

  lemma CrossWeights(p: int, q: int, x: int, y: int)
    ensures p * (y - x) + q * (x - y) == -((p - q) * (x - y))
  {
    var z := x - y;
    assert p * (y - x) == -(p * z);
    assert (p - q) * z == p * z - q * z;
  }

  lemma SwapDifference(d: seq<Byte>, i: nat, j: nat)
    requires i < j < |d|
    ensures Sum(d[i := d[j]][j := d[i]]) == Sum(d)
    ensures Weighted(d[i := d[j]][j := d[i]]) == Weighted(d) - (j - i) * (d[i] as int - d[j])
  {
    hide Sum, Weighted;
    SumUpdate(d, i, d[j]);
    SumUpdate(d[i := d[j]], j, d[i]);
    CrossWeights(|d| - i, |d| - j, d[i], d[j]);
  }

  /** A swap of two bytes is detected exactly when their distance times their difference is no
      multiple of 256; adjacent unequal bytes always are, bytes 256 apart never. */
  lemma SwapDetected(d: seq<Byte>, i: nat, j: nat)
    requires i < j < |d|
    ensures Checksum(d[i := d[j]][j := d[i]]) != Checksum(d) <==> ((j - i) * (d[i] as int - d[j])) % 256 != 0
    ensures j == i + 1 && d[i] != d[j] ==> Checksum(d[i := d[j]][j := d[i]]) != Checksum(d)
    ensures j == i + 256 ==> Checksum(d[i := d[j]][j := d[i]]) == Checksum(d)
  {
    hide Sum, Weighted;
    SwapDifference(d, i, j);
    var z := d[i] as int - d[j];
    var y := (j - i) * z;
    SmallResidues(Weighted(d), y, j - i, z);
  }

  lemma SmallResidues(w: int, y: int, k: int, z: int)
    requires y == k * z && -256 < z < 256
    ensures (w - y) % 256 == w % 256 <==> y % 256 == 0
    ensures k == 1 && z != 0 ==> y % 256 != 0
    ensures k == 256 ==> y % 256 == 0
  {
    SameResidue(w - y, w);
    NegatedResidue(y);
  }

  lemma NegatedResidue(y: int)
    ensures (-y) % 256 == 0 <==> y % 256 == 0
  {
  }

  // ---- framing -----------------------------------------------------------------------------

  datatype Msg = Msg(cls: Byte, id: Byte, payload: seq<Byte>)

  predicate Framable(m: Msg) { |m.payload| < 0x1_0000 }

  function Body(m: Msg): seq<Byte>
    requires Framable(m)
  {
    [m.cls, m.id, |m.payload| % 256, |m.payload| / 256] + m.payload
  }

  function Frame(m: Msg): (f: seq<Byte>)
    requires Framable(m)
    ensures |f| == OVERHEAD + |m.payload|
  {
    [SYNC1, SYNC2] + Body(m) + [Checksum(Body(m)).0, Checksum(Body(m)).1]
  }

  /** ubx_build_frame: the frame is written at the front of the buffer, or nothing is. */
  method BuildFrame(buf: array<Byte>, m: Msg) returns (e: Errno, total: nat)
    requires Framable(m)
    modifies buf
    ensures e == if buf.Length < OVERHEAD + |m.payload| then ENOSPC else Ok
    ensures e == Ok ==> total == |Frame(m)| && buf[..total] == Frame(m)
    ensures e == Ok ==> buf[total..] == old(buf[total..])
    ensures e != Ok ==> buf[..] == old(buf[..])
  {
    total := OVERHEAD + |m.payload|;
    if buf.Length < total {
      return ENOSPC, total;
    }
    hide Sum, Weighted, Checksum;
    var n := |m.payload|;
    var header := [SYNC1, SYNC2, m.cls, m.id, n % 256, n / 256];
    ghost var body, tail := Body(m), buf[total..];
    assert header + m.payload == [SYNC1, SYNC2] + body;
    TailOf(buf, HDR_LEN, n + CK_LEN);
    TailOf(buf, HDR_LEN + n, CK_LEN);
    Copy(buf, 0, header);
    TailOf(buf, HDR_LEN, n + CK_LEN);
    Copy(buf, HDR_LEN, m.payload);
    assert buf[..HDR_LEN + n] == [SYNC1, SYNC2] + body by {
      assert old(buf[..0]) == [];
    }
    TailOf(buf, HDR_LEN + n, CK_LEN);
    assert buf[total..] == tail;
    var covered := buf[2..HDR_LEN + n];
    assert covered == body by {
      assert covered == buf[..HDR_LEN + n][2..];
    }
    var a, b := ComputeChecksum(covered);
    Copy(buf, HDR_LEN + n, [a, b]);
    return Ok, total;
  }

  lemma TailOf(buf: array<Byte>, i: nat, n: nat)
    requires i + n <= buf.Length
    ensures buf[i..][n..] == buf[i + n..]
  {
  }

  /** memcpy into the buffer. */
  method Copy(buf: array<Byte>, at: nat, src: seq<Byte>)
    requires at + |src| <= buf.Length
    modifies buf
    ensures buf[..at + |src|] == old(buf[..at]) + src
    ensures buf[at + |src|..] == old(buf[at + |src|..])
  {
    for i := 0 to |src|
      invariant forall k | 0 <= k < at :: buf[k] == old(buf[k])
      invariant forall k | 0 <= k < i :: buf[at + k] == src[k]
      invariant forall k | at + i <= k < buf.Length :: buf[k] == old(buf[k])
    {
      buf[at + i] := src[i];
    }
  }

  /** What a receiver checks: the last two bytes are the sum, and then the weighted sum, of all from
      the class to the end of the payload. */
  predicate Checked(f: seq<Byte>) {
    |f| >= 8
    && var covered := f[2..|f| - 2];
       f[|f| - 2] == Sum(covered) % 256 && f[|f| - 1] == Weighted(covered) % 256
  }

  lemma FramesAreChecked(m: Msg)
    requires Framable(m)
    ensures Checked(Frame(m))
  {
    var f := Frame(m);
    assert f[2..|f| - 2] == Body(m);
  }

  /** No change of a byte after the sync pair passes the check. */
  lemma ChangeIsCaught(m: Msg, i: nat, x: Byte)
    requires Framable(m) && 2 <= i < |Frame(m)| && x != Frame(m)[i]
    ensures !Checked(Frame(m)[i := x])
  {
    hide Sum, Weighted, Frame;
    var f := Frame(m);
    var g := f[i := x];
    FramesAreChecked(m);
    if i < |f| - 2 {
      assert g[2..|f| - 2] == f[2..|f| - 2][i - 2 := x];
      ByteChangeDetected(f[2..|f| - 2], i - 2, x);
    } else {
      assert g[2..|f| - 2] == f[2..|f| - 2];
    }
  }

  /** Nor does a swap of two unequal neighbours from the class to the end of the payload. */
  lemma SwapIsCaught(m: Msg, i: nat)
    requires Framable(m) && 2 <= i && i + 1 < |Frame(m)| - 2 && Frame(m)[i] != Frame(m)[i + 1]
    ensures !Checked(Frame(m)[i := Frame(m)[i + 1]][i + 1 := Frame(m)[i]])
  {
    hide Sum, Weighted, Frame;
    var f := Frame(m);
    var g := f[i := f[i + 1]][i + 1 := f[i]];
    var c := f[2..|f| - 2];
    FramesAreChecked(m);
    assert g[2..|f| - 2] == c[i - 2 := c[i - 1]][i - 1 := c[i - 2]];
    SwapDetected(c, i - 2, i - 1);
  }

  /** The acknowledgement of CFG-MSG, byte by byte. */
  lemma AckBytes()
    ensures Frame(Msg(5, 1, [6, 1])) == [0xB5, 0x62, 5, 1, 2, 0, 6, 1, 0x0F, 0x38]
  {
    var b: seq<Byte> := [5, 1, 2, 0, 6, 1];
    assert b[1..] == [1, 2, 0, 6, 1] && b[1..][1..] == [2, 0, 6, 1] && b[1..][1..][1..] == [0, 6, 1];
    assert b[1..][1..][1..][1..] == [6, 1] && b[1..][1..][1..][1..][1..] == [1];
    assert Sum([1]) == 1 && Sum([6, 1]) == 7 && Sum([0, 6, 1]) == 7 && Sum([2, 0, 6, 1]) == 9 by {
      assert [6, 1][1..] == [1] && [0, 6, 1][1..] == [6, 1] && [2, 0, 6, 1][1..] == [0, 6, 1];
    }
    assert Sum([1, 2, 0, 6, 1]) == 10 && Sum(b) == 15;
    assert Weighted([1]) == 1 && Weighted([6, 1]) == 13 && Weighted([0, 6, 1]) == 13
      && Weighted([2, 0, 6, 1]) == 21 by {
      assert [6, 1][1..] == [1] && [0, 6, 1][1..] == [6, 1] && [2, 0, 6, 1][1..] == [0, 6, 1];
    }
    assert Weighted([1, 2, 0, 6, 1]) == 26 && Weighted(b) == 56;
    assert Body(Msg(5, 1, [6, 1])) == b;
  }

  // ---- the frame scan ----------------------------------------------------------------------------

  predicate SyncAt(data: seq<Byte>, i: nat) {
    i + 1 < |data| && data[i] == SYNC1 && data[i + 1] == SYNC2
  }

  /** The whole frame that starts at i, if one does. */
  function FrameAt(data: seq<Byte>, i: nat): Option<Msg>
    requires i + OVERHEAD <= |data|
  {
    var n := data[i + 4] as int + 256 * data[i + 5] as int;
    if SyncAt(data, i) && i + OVERHEAD + n <= |data|
      then Some(Msg(data[i + 2], data[i + 3], data[i + HDR_LEN..i + HDR_LEN + n]))
    else None
  }

  /** What the scan finds from i on. */
  function Scanned(data: seq<Byte>, i: nat): seq<Msg>
    decreases |data| - i
  {
    if i + OVERHEAD > |data| then []
    else
      match FrameAt(data, i)
      case None => Scanned(data, i + 1)
      case Some(m) => [m] + Scanned(data, i + OVERHEAD + |m.payload|)
  }

  /** The loop of the test script's frame parser. */
  method Parse(data: seq<Byte>) returns (frames: seq<Msg>)
    ensures frames == Scanned(data, 0)
  {
    frames := [];
    var i := 0;
    while i + OVERHEAD <= |data|
      invariant frames + Scanned(data, i) == Scanned(data, 0)
      decreases |data| - i
    {
      if data[i] == SYNC1 && data[i + 1] == SYNC2 {
        var n := data[i + 4] as int + 256 * data[i + 5] as int;
        if i + OVERHEAD + n <= |data| {
          var m := Msg(data[i + 2], data[i + 3], data[i + HDR_LEN..i + HDR_LEN + n]);
          assert FrameAt(data, i) == Some(m);
          assert frames + ([m] + Scanned(data, i + OVERHEAD + n)) == frames + [m] + Scanned(data, i + OVERHEAD + n);
          frames := frames + [m];
          i := i + OVERHEAD + n;
          continue;
        }
      }
      assert FrameAt(data, i) == None;
      i := i + 1;
    }
  }

  /** A frame and the bytes that come before it, none of which look like a frame start. */
  datatype Item = Item(noise: seq<Byte>, msg: Msg)

  ghost predicate Quiet(noise: seq<Byte>) {
    forall i: nat :: !SyncAt(noise, i)
  }

  ghost predicate Clean(items: seq<Item>) {
    forall x | x in items :: Quiet(x.noise) && Framable(x.msg)
  }

  ghost function Stream(items: seq<Item>, tail: seq<Byte>): seq<Byte>
    requires Clean(items)
  {
    if items == [] then tail
    else
      assert items[0] in items;
      items[0].noise + Frame(items[0].msg) + Stream(items[1..], tail)
  }

  function Msgs(items: seq<Item>): seq<Msg> {
    if items == [] then [] else [items[0].msg] + Msgs(items[1..])
  }

  lemma {:induction false} SkipsQuiet(data: seq<Byte>, i: nat, n: nat)
    requires i <= n <= |data| && forall k | i <= k < n :: !SyncAt(data, k)
    ensures Scanned(data, i) == Scanned(data, n)
    decreases n - i
  {
    if i < n {
      if i + OVERHEAD <= |data| {
        SkipsQuiet(data, i + 1, n);
      }
    }
  }

  lemma FrameShift(pre: seq<Byte>, data: seq<Byte>, i: nat)
    requires i + OVERHEAD <= |data|
    ensures FrameAt(pre + data, |pre| + i) == FrameAt(data, i)
  {
    var d, j := pre + data, |pre| + i;
    assert d[j] == data[i] && d[j + 1] == data[i + 1] && d[j + 2] == data[i + 2];
    assert d[j + 3] == data[i + 3] && d[j + 4] == data[i + 4] && d[j + 5] == data[i + 5];
    var n := data[i + 4] as int + 256 * data[i + 5] as int;
    if i + OVERHEAD + n <= |data| {
      assert d[j + HDR_LEN..j + HDR_LEN + n] == data[i + HDR_LEN..i + HDR_LEN + n];
    }
  }

  /** A whole frame anywhere ahead keeps the scan from finding nothing. */
  lemma {:induction false} FrameFound(data: seq<Byte>, j: nat, i: nat)
    requires j <= i && i + OVERHEAD <= |data| && FrameAt(data, i).Some?
    ensures Scanned(data, j) != []
    decreases i - j
  {
    if FrameAt(data, j).None? {
      FrameFound(data, j + 1, i);
    }
  }

  lemma {:induction false} ScannedShift(pre: seq<Byte>, data: seq<Byte>, i: nat)
    ensures Scanned(pre + data, |pre| + i) == Scanned(data, i)
    decreases |data| - i
  {
    hide FrameAt;
    if i + OVERHEAD <= |data| {
      FrameShift(pre, data, i);
      match FrameAt(data, i)
      case None => ScannedShift(pre, data, i + 1);
      case Some(m) =>
        ScannedShift(pre, data, i + OVERHEAD + |m.payload|);
        assert |pre| + i + OVERHEAD + |m.payload| == |pre| + (i + OVERHEAD + |m.payload|);
    }
  }

  lemma FrameFront(m: Msg)
    requires Framable(m)
    ensures SyncAt(Frame(m), 0) && Frame(m)[2] == m.cls && Frame(m)[3] == m.id
  {
  }

  lemma PayloadInFrame(m: Msg, i: nat)
    requires Framable(m) && i <= |m.payload|
    ensures Frame(m)[HDR_LEN + i..HDR_LEN + |m.payload|] == m.payload[i..]
  {
  }

  lemma FrameScanned(m: Msg, rest: seq<Byte>)
    requires Framable(m)
    ensures Scanned(Frame(m) + rest, 0) == [m] + Scanned(rest, 0)
  {
    var d, n := Frame(m) + rest, |m.payload|;
    assert d[4] == n % 256 && d[5] == n / 256;
    assert d[HDR_LEN..HDR_LEN + n] == m.payload;
    assert FrameAt(d, 0) == Some(m);
    ScannedShift(Frame(m), rest, 0);
  }

  lemma NoiseSkipped(noise: seq<Byte>, rest: seq<Byte>)
    requires Quiet(noise)
    requires rest != [] ==> rest[0] == SYNC1 || noise == [] || noise[|noise| - 1] != SYNC1 || rest[0] != SYNC2
    ensures Scanned(noise + rest, 0) == Scanned(rest, 0)
  {
    var d := noise + rest;
    forall k | 0 <= k < |noise| ensures !SyncAt(d, k) {
      assert !SyncAt(noise, k);
    }
    SkipsQuiet(d, 0, |noise|);
    ScannedShift(noise, rest, 0);
  }

  lemma {:induction false} QuietScanned(data: seq<Byte>, i: nat)
    requires Quiet(data)
    ensures Scanned(data, i) == []
    decreases |data| - i
  {
    if i + OVERHEAD <= |data| {
      QuietScanned(data, i + 1);
    }
  }

  /** Any concatenation of built frames, with bytes that contain no sync pair between and after
      them, is split back into exactly the frames' classes, ids and payloads. */
  lemma {:induction false} StreamIsSplit(items: seq<Item>, tail: seq<Byte>)
    requires Clean(items) && Quiet(tail)
    ensures Scanned(Stream(items, tail), 0) == Msgs(items)
  {
    if items == [] {
      QuietScanned(tail, 0);
    } else {
      var x := items[0];
      assert x in items;
      assert forall y | y in items[1..] :: y in items;
      StreamIsSplit(items[1..], tail);
      var rest := Stream(items[1..], tail);
      FrameScanned(x.msg, rest);
      NoiseSkipped(x.noise, Frame(x.msg) + rest);
      assert Stream(items, tail) == x.noise + (Frame(x.msg) + rest);
    }
  }

  // ---- CFG-VALSET ------------------------------------------------------------------------------------

  function Le32(b: seq<Byte>): nat
    requires |b| == 4
  {
    b[0] as int + 0x100 * (b[1] as int + 0x100 * (b[2] as int + 0x100 * b[3] as int))
  }

  function ToLe32(v: nat): (b: seq<Byte>)
    requires v < 0x1_0000_0000
    ensures |b| == 4 && Le32(b) == v
  {
    [v % 0x100, v / 0x100 % 0x100, v / 0x100 / 0x100 % 0x100, v / 0x100 / 0x100 / 0x100]
  }

  /** The least significant byte comes first. */
  lemma LittleEndian(a: Byte, b: Byte, c: Byte, d: Byte)
    ensures Le32([a, b, c, d]) == a as int + 256 * b as int + 65536 * c as int + 16777216 * d as int
    ensures ToLe32(Le32([a, b, c, d])) == [a, b, c, d]
  {
    var z: nat := d;
    var y := c as int + 0x100 * z;
    var x := b as int + 0x100 * y;
    var w := a as int + 0x100 * x;
    assert w % 0x100 == a && w / 0x100 == x && x % 0x100 == b && x / 0x100 == y && y % 0x100 == c && y / 0x100 == z;
  }

  /** The value of the first interference-filter key, found in steps of five from pos on. */
  function ValsetFrom(buf: seq<Byte>, pos: nat, end: nat): Option<Byte>
    requires end <= |buf|
    decreases end - pos
  {
    if pos + 4 >= end then None
    else if Le32(buf[pos..pos + 4]) == KEY_INFIL_NCNOTHRS then Some(buf[pos + 4])
    else ValsetFrom(buf, pos + 5, end)
  }

  /** What a written CFG-VALSET asks for. */
  function Valset(buf: seq<Byte>): Option<Byte> {
    if |buf| < HDR_LEN + VALSET_HDR_LEN + 5 then None
    else ValsetFrom(buf, HDR_LEN + VALSET_HDR_LEN, |buf| - CK_LEN)
  }

  /** The scan loop in nsim_gnss_write_raw. */
  method ScanValset(buf: seq<Byte>) returns (val: Option<Byte>)
    requires |buf| >= HDR_LEN + VALSET_HDR_LEN + 5
    ensures val == Valset(buf)
  {
    var end := |buf| - CK_LEN;
    var pos := HDR_LEN + VALSET_HDR_LEN;
    while pos + 4 < end
      invariant ValsetFrom(buf, pos, end) == Valset(buf)
      decreases end - pos
    {
      var key := Le32(buf[pos..pos + 4]);
      pos := pos + 4;
      if key == KEY_INFIL_NCNOTHRS && pos < end {
        return Some(buf[pos]);
      }
      pos := pos + 1;
    }
    return None;
  }

  datatype KeyVal = KeyVal(key: nat, val: Byte)

  predicate Keys32(kvs: seq<KeyVal>) {
    forall kv | kv in kvs :: kv.key < 0x1_0000_0000
  }

  function KeyVals(kvs: seq<KeyVal>): (r: seq<Byte>)
    requires Keys32(kvs)
    ensures |r| == 5 * |kvs|
  {
    if kvs == [] then []
    else
      assert kvs[0] in kvs;
      ToLe32(kvs[0].key) + [kvs[0].val] + KeyVals(kvs[1..])
  }

  function FirstOf(kvs: seq<KeyVal>): Option<Byte> {
    if kvs == [] then None
    else if kvs[0].key == 0x201100aa then Some(kvs[0].val)
    else FirstOf(kvs[1..])
  }

  lemma {:induction false} KeyValsScanned(buf: seq<Byte>, pos: nat, kvs: seq<KeyVal>)
    requires Keys32(kvs) && pos + 5 * |kvs| <= |buf| && buf[pos..pos + 5 * |kvs|] == KeyVals(kvs)
    ensures ValsetFrom(buf, pos, pos + 5 * |kvs|) == FirstOf(kvs)
    decreases |kvs|
  {
    if kvs != [] {
      var w := buf[pos..pos + 5 * |kvs|];
      assert kvs[0] in kvs;
      assert buf[pos..pos + 4] == w[..4] == ToLe32(kvs[0].key);
      assert buf[pos + 4] == w[4] == kvs[0].val;
      assert buf[pos + 5..pos + 5 * |kvs|] == w[5..] == KeyVals(kvs[1..]);
      KeyValsScanned(buf, pos + 5, kvs[1..]);
    }
  }

  /** From a built CFG-VALSET frame with one-byte values the scan recovers the value of the first
      interference-filter key, or finds none. */
  lemma BuiltValsetIsRead(header: seq<Byte>, kvs: seq<KeyVal>)
    requires |header| == VALSET_HDR_LEN && Keys32(kvs) && 4 + 5 * |kvs| < 0x1_0000
    ensures Valset(Frame(Msg(CLASS_CFG, CFG_VALSET, header + KeyVals(kvs)))) == FirstOf(kvs)
  {
    hide Frame, KeyVals;
    var m := Msg(CLASS_CFG, CFG_VALSET, header + KeyVals(kvs));
    var buf := Frame(m);
    if kvs != [] {
      PayloadInFrame(m, VALSET_HDR_LEN);
      assert m.payload[VALSET_HDR_LEN..] == KeyVals(kvs);
      KeyValsScanned(buf, HDR_LEN + VALSET_HDR_LEN, kvs);
    }
  }
}
