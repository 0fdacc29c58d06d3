/** Recognising the fix quality in a written NMEA 0183 stream (netdevsim/dpll.c). */
module Nmea {
  import opened Prelude

  const DOLLAR: Byte := 0x24
  const STAR: Byte := 0x2A
  const COMMA: Byte := 0x2C
  const ZERO: Byte := 0x30
  const LETTER_A: Byte := 0x41
  const LETTER_G: Byte := 0x47

  // ---- what the scanner looks for ------------------------------------------------------

  /** A GGA header at p: '$', any two talker characters, "GGA,". */
  predicate IsHeader(buf: seq<Byte>, p: nat) {
    p + 7 <= |buf| && buf[p] == DOLLAR && buf[p + 3] == LETTER_G && buf[p + 4] == LETTER_G
    && buf[p + 5] == LETTER_A && buf[p + 6] == COMMA
  }

  function FirstHeader(buf: seq<Byte>): Option<nat> {
    Next(set p: nat | p < |buf| && IsHeader(buf, p), 0)
  }

  /** The k-th comma from position i on, unless the sentence ends before it. */
  function KthComma(buf: seq<Byte>, i: nat, k: nat): Option<nat>
    decreases |buf| - i
  {
    if k == 0 || i >= |buf| || buf[i] == STAR || buf[i] == DOLLAR then None
    else if buf[i] != COMMA then KthComma(buf, i + 1, k)
    else if k == 1 then Some(i)
    else KthComma(buf, i + 1, k - 1)
  }

  /** The digit after the fifth comma of the first GGA header. */
  function GgaQuality(buf: seq<Byte>): Option<nat> {
    match FirstHeader(buf)
    case None => None
    case Some(p) =>
      match KthComma(buf, p + 7, 5)
      case None => None
      case Some(i) =>
        if i + 1 < |buf| && ZERO <= buf[i + 1] <= ZERO + 9 then Some(buf[i + 1] - ZERO) else None
  }

  lemma {:induction false} CommaBounds(buf: seq<Byte>, i: nat, k: nat)
    ensures KthComma(buf, i, k).Some? ==> i + k <= KthComma(buf, i, k).value + 1 && KthComma(buf, i, k).value < |buf|
    decreases |buf| - i
  {
    if k != 0 && i < |buf| && buf[i] != STAR && buf[i] != DOLLAR {
      if buf[i] != COMMA {
        CommaBounds(buf, i + 1, k);
      } else if k > 1 {
        CommaBounds(buf, i + 1, k - 1);
      }
    }
  }

  /** A header too near the end for the scanner to consider has no quality field anyway. */
  lemma ShortHeader(buf: seq<Byte>)
    requires FirstHeader(buf).Some? && FirstHeader(buf).value + 10 >= |buf|
    ensures GgaQuality(buf) == None
  {
    CommaBounds(buf, FirstHeader(buf).value + 7, 5);
  }

  // ---- the scanner --------------------------------------------------------------------------

  /** The search loops of nsim_parse_gga_fix; every access is in bounds. */
  method ScanGga(buf: seq<Byte>) returns (quality: Option<nat>)
    ensures quality == GgaQuality(buf)
  {
    ghost var headers := set p: nat | p < |buf| && IsHeader(buf, p);
    var p := 0;
    while p + 10 < |buf|
      invariant forall h | h in headers :: p <= h
    {
      if buf[p] != DOLLAR {
        p := p + 1;
        continue;
      }
      if p + 7 > |buf| {
        break;
      }
      if buf[p + 3] != LETTER_G || buf[p + 4] != LETTER_G || buf[p + 5] != LETTER_A || buf[p + 6] != COMMA {
        p := p + 1;
        continue;
      }
      assert p in headers;
      NextIs(headers, 0, Some(p));
      quality := ScanFields(buf, p + 7);
      return;
    }
    var first := FirstHeader(buf);
    assert IsNext(headers, 0, first);
    if first.Some? {
      ShortHeader(buf);
    }
    return None;
  }

  /** The inner loop: counts commas up to the fifth. */
  method ScanFields(buf: seq<Byte>, from: nat) returns (quality: Option<nat>)
    ensures quality == match KthComma(buf, from, 5)
                       case None => None
                       case Some(i) =>
                         if i + 1 < |buf| && ZERO <= buf[i + 1] <= ZERO + 9 then Some(buf[i + 1] - ZERO) else None
  {
    var commas := 0;
    var i := from;
    while i < |buf|
      invariant commas <= 4 && from <= i
      invariant KthComma(buf, i, 5 - commas) == KthComma(buf, from, 5)
    {
      if buf[i] == STAR || buf[i] == DOLLAR {
        break;
      }
      if buf[i] == COMMA {
        commas := commas + 1;
        if commas == 5 {
          if i + 1 >= |buf| || buf[i + 1] < ZERO || buf[i + 1] > ZERO + 9 {
            return None;
          }
          return Some(buf[i + 1] - ZERO);
        }
      }
      i := i + 1;
    }
    return None;
  }

  // ---- what the quality is, without the scanner's own terms --------------------------------

  /** "$xxGGA," stands at p. */
  predicate GgaAt(buf: seq<Byte>, p: nat) {
    p + 7 <= |buf| && buf[p] == '$' as int && buf[p + 3..p + 7] == Ascii("GGA,")
  }

  function Commas(s: seq<Byte>): nat {
    if s == [] then 0 else (if s[0] == ',' as int then 1 else 0) + Commas(s[1..])
  }

  /** No sentence end or start from i to j - 1. */
  predicate Within(buf: seq<Byte>, i: nat, j: nat)
    requires j <= |buf|
  {
    forall t | i <= t < j :: buf[t] != '*' as int && buf[t] != '$' as int
  }

  lemma {:induction false} KthCommaExactly(buf: seq<Byte>, i: nat, k: nat, j: nat)
    requires k >= 1
    ensures KthComma(buf, i, k) == Some(j) <==>
      i <= j < |buf| && buf[j] == ',' as int && Within(buf, i, j) && Commas(buf[i..j]) == k - 1
    decreases |buf| - i
  {
    if i < |buf| && i < j < |buf| {
      assert buf[i..j][1..] == buf[i + 1..j];
    }
    if i < |buf| && buf[i] != STAR && buf[i] != DOLLAR {
      if buf[i] != COMMA {
        KthCommaExactly(buf, i + 1, k, j);
      } else if k > 1 {
        KthCommaExactly(buf, i + 1, k - 1, j);
      }
    }
  }

  /** The first "$xxGGA," stands at p; the fifth comma after it, at j, comes before any '*' or '$' and is
      followed by the digit q. */
  ghost predicate ReportsAt(buf: seq<Byte>, q: nat, p: nat, j: nat) {
    && GgaAt(buf, p) && (forall r: nat | r < p :: !GgaAt(buf, r))
    && p + 7 <= j && j + 1 < |buf| && buf[j] == ',' as int && Within(buf, p + 7, j)
    && Commas(buf[p + 7..j]) == 4 && q <= 9 && buf[j + 1] == '0' as int + q
  }

  /** The scanner reports exactly what the text reports. */
  lemma QualityExactly(buf: seq<Byte>, q: nat)
    ensures GgaQuality(buf) == Some(q) <==> exists p: nat, j: nat :: ReportsAt(buf, q, p, j)
  {
    FirstIsText(buf);
    var first := FirstHeader(buf);
    if GgaQuality(buf) == Some(q) {
      var p := first.value;
      var j := KthComma(buf, p + 7, 5).value;
      KthCommaExactly(buf, p + 7, 5, j);
      assert ReportsAt(buf, q, p, j);
    }
    if p: nat, j: nat :| ReportsAt(buf, q, p, j) {
      assert first == Some(p);
      KthCommaExactly(buf, p + 7, 5, j);
    }
  }

  lemma FirstIsText(buf: seq<Byte>)
    ensures match FirstHeader(buf)
            case None => forall p: nat :: !GgaAt(buf, p)
            case Some(p) => GgaAt(buf, p) && forall r: nat | r < p :: !GgaAt(buf, r)
  {
    var headers := set p: nat | p < |buf| && IsHeader(buf, p);
    assert IsNext(headers, 0, FirstHeader(buf));
    forall p: nat ensures GgaAt(buf, p) <==> p in headers {
      HeaderIsText(buf, p);
    }
  }

  lemma HeaderIsText(buf: seq<Byte>, p: nat)
    ensures IsHeader(buf, p) <==> GgaAt(buf, p)
  {
    if p + 7 <= |buf| {
      var t := Ascii("GGA,");
      assert t == ['G' as int, 'G' as int, 'A' as int, ',' as int];
      assert buf[p + 3..p + 7] == [buf[p + 3], buf[p + 4], buf[p + 5], buf[p + 6]];
    }
  }

  // ---- printed sentences ------------------------------------------------------------------------

  predicate SeparatorFree(s: seq<Byte>) {
    forall b | b in s :: b != COMMA && b != STAR && b != DOLLAR
  }

  /** The fields of a sentence up to the quality: each followed by a comma. */
  function Fields(fs: seq<seq<Byte>>): seq<Byte> {
    if fs == [] then [] else fs[0] + [COMMA] + Fields(fs[1..])
  }

  /** A printed GGA sentence: time, latitude, N or S, longitude, E or W, quality, and the rest. */
  function Sentence(talker: seq<Byte>, fs: seq<seq<Byte>>, quality: nat, rest: seq<Byte>): seq<Byte>
    requires quality <= 9
  {
    [DOLLAR] + talker + [LETTER_G, LETTER_G, LETTER_A, COMMA] + Fields(fs) + [ZERO + quality] + rest
  }

  lemma {:induction false} SkipsField(buf: seq<Byte>, i: nat, n: nat, k: nat)
    requires i + n < |buf| && k > 0
    requires forall j | i <= j < i + n :: buf[j] != COMMA && buf[j] != STAR && buf[j] != DOLLAR
    requires buf[i + n] == COMMA
    ensures KthComma(buf, i, k) == if k == 1 then Some(i + n) else KthComma(buf, i + n + 1, k - 1)
    decreases n
  {
    if n > 0 {
      SkipsField(buf, i + 1, n - 1, k);
    }
  }

  lemma {:induction false} CommaAfterFields(buf: seq<Byte>, at: nat, fs: seq<seq<Byte>>)
    requires fs != [] && forall f | f in fs :: SeparatorFree(f)
    requires at + |Fields(fs)| <= |buf| && buf[at..at + |Fields(fs)|] == Fields(fs)
    ensures KthComma(buf, at, |fs|) == Some(at + |Fields(fs)| - 1)
    decreases |fs|
  {
    var f, n, w := fs[0], |fs[0]|, buf[at..at + |Fields(fs)|];
    assert f in fs;
    forall j | at <= j < at + n ensures buf[j] != COMMA && buf[j] != STAR && buf[j] != DOLLAR {
      assert buf[j] == w[j - at] == f[j - at] && f[j - at] in f;
    }
    assert buf[at + n] == w[n] == COMMA;
    SkipsField(buf, at, n, |fs|);
    if |fs| > 1 {
      var rest := Fields(fs[1..]);
      assert w == f + [COMMA] + rest;
      assert buf[at + n + 1..at + n + 1 + |rest|] == w[n + 1..] == rest;
      CommaAfterFields(buf, at + n + 1, fs[1..]);
    } else {
      assert Fields(fs[1..]) == [];
    }
  }

  /** Text without a GGA header does not complete one with the start of a sentence. */
  lemma HeaderAfterPrefix(prefix: seq<Byte>, talker: seq<Byte>, tail: seq<Byte>)
    requires |talker| == 2 && forall p: nat :: !IsHeader(prefix, p)
    ensures FirstHeader(prefix + ([DOLLAR] + talker + [LETTER_G, LETTER_G, LETTER_A, COMMA] + tail)) == Some(|prefix|)
  {
    var sentence := [DOLLAR] + talker + [LETTER_G, LETTER_G, LETTER_A, COMMA] + tail;
    var buf := prefix + sentence;
    var n := |prefix|;
    assert buf[n] == DOLLAR && buf[n + 3] == LETTER_G && buf[n + 4] == LETTER_G && buf[n + 5] == LETTER_A
      && buf[n + 6] == COMMA;
    var headers := set p: nat | p < |buf| && IsHeader(buf, p);
    assert n in headers;
    forall p | p in headers ensures n <= p {
      if p < n {
        if p + 7 <= n {
          assert IsHeader(prefix, p);
        }
        assert false;
      }
    }
    NextIs(headers, 0, Some(n));
  }

  /** Whatever precedes it, as long as that holds no GGA header itself, the scanner recovers the
      quality of a printed sentence with separator-free fields. */
  lemma PrintedQualityIsRead(prefix: seq<Byte>, talker: seq<Byte>, fs: seq<seq<Byte>>, quality: nat, rest: seq<Byte>)
    requires |talker| == 2 && |fs| == 5 && quality <= 9
    requires forall p: nat :: !IsHeader(prefix, p)
    requires forall f | f in fs :: SeparatorFree(f)
    ensures GgaQuality(prefix + Sentence(talker, fs, quality, rest)) == Some(quality)
  {
    var head := [DOLLAR] + talker + [LETTER_G, LETTER_G, LETTER_A, COMMA];
    var tail := [ZERO + quality] + rest;
    var buf := prefix + Sentence(talker, fs, quality, rest);
    assert Sentence(talker, fs, quality, rest) == head + (Fields(fs) + tail);
    HeaderAfterPrefix(prefix, talker, Fields(fs) + tail);
    var pre := prefix + head;
    assert buf == pre + Fields(fs) + tail;
    assert buf[|pre|..|pre| + |Fields(fs)|] == Fields(fs);
    CommaAfterFields(buf, |pre|, fs);
    assert buf[|pre| + |Fields(fs)|] == ZERO + quality;
  }
}
