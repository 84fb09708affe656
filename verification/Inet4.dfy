/** IPv4 text: inet_pton4 and inet_ntop4 of libfree/inet_pton.c and inet_ntop.c,
    and the lenient inet_aton of libfree/inet_aton.c. */
module Inet4 {
  import opened Base
  import opened Text
  import opened Numerals

  const INADDRSZ := 4

  /** One part of a dotted quad: any number of digits, value at most 255. */
  predicate IsOctet(g: string) {
    g != "" && IsDigits(g) && DecValue(g) <= 255
  }

  /** A quad is four octets joined by single dots. */
  predicate IsQuad(parts: seq<string>) {
    |parts| == INADDRSZ && forall k | 0 <= k < |parts| :: IsOctet(parts[k])
  }

  function QuadValue(parts: seq<string>): (a: seq<byte>)
    requires IsQuad(parts)
    ensures |a| == INADDRSZ
  {
    [DecValue(parts[0]), DecValue(parts[1]), DecValue(parts[2]), DecValue(parts[3])]
  }

  /** The address a text denotes as a dotted quad, if it is one. */
  function Quad(s: string): (a: Option<seq<byte>>)
    ensures a.Some? ==> |a.value| == INADDRSZ
  {
    var parts := Split(s, '.');
    if IsQuad(parts) then Some(QuadValue(parts)) else None
  }

  /** Four nonempty groups of digits with a dot between each two, and the bytes they are worth. */
  ghost predicate SpellsQuad(p: seq<string>, s: string, a: seq<byte>) {
    && |p| == |a| == 4 && s == p[0] + "." + p[1] + "." + p[2] + "." + p[3]
    && forall k | 0 <= k < 4 :: p[k] != "" && IsDigits(p[k]) && a[k] == DecValue(p[k])
  }

  /** The grammar of dotted quads. */
  lemma QuadGrammar(s: string, a: seq<byte>)
    ensures Quad(s) == Some(a) <==> exists p :: SpellsQuad(p, s, a)
  {
    if Quad(s) == Some(a) {
      var p := Split(s, '.');
      JoinSplit(s, '.');
      JoinFour(p);
      assert forall k | 0 <= k < 4 :: IsOctet(p[k]) && a[k] == DecValue(p[k]);
      assert SpellsQuad(p, s, a);
    }
    if p :| SpellsQuad(p, s, a) {
      JoinFour(p);
      DigitsFree(p);
      SplitJoin(p, '.');
      assert forall k | 0 <= k < 4 :: IsOctet(p[k]);
      assert a == QuadValue(p);
    }
  }

  lemma DigitsFree(p: seq<string>)
    requires forall k | 0 <= k < |p| :: IsDigits(p[k])
    ensures Free(p, '.')
  {
    forall k | 0 <= k < |p|
      ensures '.' !in p[k]
    {
      assert !IsDigit('.');
    }
  }

  lemma QuadCharset(s: string)
    requires Quad(s).Some?
    ensures forall c | c in s :: IsDigit(c) || c == '.'
  {
    JoinSplit(s, '.');
    var p := Split(s, '.');
    JoinFour(p);
    assert forall k | 0 <= k < 4 :: IsOctet(p[k]);
  }

  // ------------------------------------------------------------ inet_pton4

  /** Where the scan of a prefix of the text stands: the octets begun so far
      and whether the last one has a digit yet. */
  datatype Scan = Bad | Scan(octets: seq<byte>, sawDigit: bool)

  function PushDigit(octet: nat, c: char): nat
    requires IsDigit(c)
  {
    octet * 10 + DigitVal(c)
  }

  function ScanStep(scan: Scan, c: char): Scan {
    match scan
    case Bad => Bad
    case Scan(octets, sawDigit) =>
      var n := |octets| - 1;
      if n < 0 then Bad
      else if IsDigit(c) && PushDigit(octets[n], c) <= 255 then
        Scan(octets[..n] + [PushDigit(octets[n], c)], true)
      else if c == '.' && sawDigit && |octets| < INADDRSZ then Scan(octets + [0], false)
      else Bad
  }

  /** The scan of the text from index i on. */
  function ScanFrom(s: string, i: nat, scan: Scan): Scan
    requires i <= |s|
    decreases |s| - i
  {
    if i == |s| then scan else ScanFrom(s, i + 1, ScanStep(scan, s[i]))
  }

  const START := Scan([0], false)

  /** The scan survives exactly when the pieces can still become a quad. */
  ghost predicate Viable(parts: seq<string>) {
    && 1 <= |parts| <= INADDRSZ
    && (forall k | 0 <= k < |parts| :: IsDigits(parts[k]) && DecValue(parts[k]) <= 255)
    && (forall k | 0 <= k < |parts| - 1 :: parts[k] != "")
  }

  ghost function Octets(parts: seq<string>): (a: seq<byte>)
    requires Viable(parts)
    ensures |a| == |parts|
  {
    seq(|parts|, k requires 0 <= k < |parts| => DecValue(parts[k]))
  }

  ghost function ScanOfParts(parts: seq<string>): Scan
    requires |parts| >= 1
  {
    if Viable(parts) then Scan(Octets(parts), parts[|parts| - 1] != "") else Bad
  }

  lemma {:induction false} ScanMeaning(s: string, i: nat)
    requires i <= |s|
    ensures ScanFrom(s, i, ScanOfParts(Split(s[..i], '.'))) == ScanOfParts(Split(s, '.'))
    decreases |s| - i
  {
    if i == |s| {
      assert s[..i] == s;
    } else {
      SplitAt(s, i, '.');
      ScanMeaningStep(Split(s[..i], '.'), s[i]);
      ScanMeaning(s, i + 1);
    }
  }

  lemma ScanMeaningStep(parts: seq<string>, c: char)
    requires |parts| >= 1
    ensures ScanStep(ScanOfParts(parts), c) ==
            ScanOfParts(if c == '.' then parts + [""] else Grow(parts, [c]))
  {
    if c == '.' {
      ScanDot(parts);
    } else {
      ScanOther(parts, c);
    }
  }

  lemma ScanDot(parts: seq<string>)
    requires |parts| >= 1
    ensures ScanStep(ScanOfParts(parts), '.') == ScanOfParts(parts + [""])
  {
    var next := parts + [""];
    assert forall k | 0 <= k < |parts| :: next[k] == parts[k];
    if Viable(parts) && Viable(next) {
      assert Octets(next) == Octets(parts) + [0];
    }
  }

  lemma ScanOther(parts: seq<string>, c: char)
    requires |parts| >= 1 && c != '.'
    ensures ScanStep(ScanOfParts(parts), c) == ScanOfParts(Grow(parts, [c]))
  {
    var n := |parts| - 1;
    var last, next := parts[n], Grow(parts, [c]);
    assert forall k | 0 <= k < n :: next[k] == parts[k];
    hide IsDigits, DecValue, Octets;
    assert next[n] == last + [c];
    OneMoreDigit(last, c);
    if Viable(parts) && Viable(next) {
      OctetsGrow(parts, c);
    }
  }

  lemma OneMoreDigit(s: string, c: char)
    ensures IsDigits(s + [c]) <==> IsDigits(s) && IsDigit(c)
    ensures IsDigits(s + [c]) ==> DecValue(s + [c]) == PushDigit(DecValue(s), c)
  {
    assert (s + [c])[..|s|] == s;
    assert c in s + [c] && forall d | d in s :: d in s + [c];
  }

  lemma OctetsGrow(parts: seq<string>, c: char)
    requires Viable(parts) && Viable(Grow(parts, [c]))
    ensures var n, next := |parts| - 1, Grow(parts, [c]);
            Octets(next) == Octets(parts)[..n] + [DecValue(next[n])] && next[n] == parts[n] + [c]
    ensures Octets(parts)[|parts| - 1] == DecValue(parts[|parts| - 1])
  {
    hide DecValue, IsDigits;
    var n, next := |parts| - 1, Grow(parts, [c]);
    assert forall k | 0 <= k < n :: next[k] == parts[k];
    assert next[n] == parts[n] + [c];
    assert Octets(next)[..n] == Octets(parts)[..n];
  }

  lemma {:induction false} BadForGood(s: string, i: nat)
    requires i <= |s|
    ensures ScanFrom(s, i, Bad) == Bad
    decreases |s| - i
  {
    if i < |s| {
      BadForGood(s, i + 1);
    }
  }

  ghost predicate Accepted(scan: Scan) {
    scan.Scan? && |scan.octets| == INADDRSZ && scan.sawDigit
  }

  lemma ScanDecides(s: string)
    ensures Quad(s) == var scan := ScanFrom(s, 0, START);
                       if Accepted(scan) then Some(scan.octets) else None
  {
    assert s[..0] == "" && Octets([""]) == [0];
    ScanMeaning(s, 0);
    var parts := Split(s, '.');
    if IsQuad(parts) {
      assert Octets(parts) == QuadValue(parts);
    }
  }

  /** The loop of inet_pton4, filling its local tmp[]. */
  method ScanQuad(src: string, tmp: array<byte>) returns (ok: bool)
    requires tmp.Length == INADDRSZ
    modifies tmp
    ensures ok <==> Accepted(ScanFrom(src, 0, START))
    ensures ok ==> tmp[..] == ScanFrom(src, 0, START).octets
  {
    var sawDigit, octets, tp, i := false, 0, 0, 0;
    tmp[0] := 0;
    ghost var scan := START;
    while i < |src|
      invariant 0 <= i <= |src| && 0 <= tp < INADDRSZ
      invariant octets == if sawDigit then tp + 1 else tp
      invariant ScanFrom(src, i, scan) == ScanFrom(src, 0, START) && scan.Scan? && scan.sawDigit == sawDigit
      invariant |scan.octets| == tp + 1 && forall k | 0 <= k <= tp :: tmp[k] == scan.octets[k]
    {
      var ch := src[i];
      scan := ScanStep(scan, ch);
      BadForGood(src, i + 1);
      if IsDigit(ch) {
        var value := PushDigit(tmp[tp], ch);
        if value > 255 {
          return false;
        }
        tmp[tp] := value;
        if !sawDigit {
          octets := octets + 1;
          if octets > 4 {
            return false;
          }
          sawDigit := true;
        }
      } else if ch == '.' && sawDigit {
        if octets == 4 {
          return false;
        }
        tp := tp + 1;
        tmp[tp] := 0;
        sawDigit := false;
      } else {
        return false;
      }
      i := i + 1;
    }
    ok := octets >= 4;
  }

  /** inet_pton4. The caller's four bytes start at index off, as they do when
      inet_pton6 hands over the middle of its own buffer. */
  method InetPton4(src: string, dst: array<byte>, off: nat) returns (ok: bool)
    requires off + INADDRSZ <= dst.Length
    modifies dst
    ensures ok <==> Quad(src).Some?
    ensures ok ==> dst[..] == old(dst[..off]) + Quad(src).value + old(dst[off + INADDRSZ..])
    ensures !ok ==> dst[..] == old(dst[..])
  {
    var tmp := new byte[INADDRSZ];
    ok := ScanQuad(src, tmp);
    ScanDecides(src);
    if ok {
      Memcpy(dst, off, tmp[..]);
    }
  }

  // ------------------------------------------------------------ inet_ntop4

  /** The text sprintf writes with "%u.%u.%u.%u". */
  function QuadText(a: seq<byte>): string
    requires |a| == INADDRSZ
  {
    Dec(a[0]) + "." + Dec(a[1]) + "." + Dec(a[2]) + "." + Dec(a[3])
  }

  ghost function QuadParts(a: seq<byte>): (parts: seq<string>)
    requires |a| == INADDRSZ
    ensures |parts| == INADDRSZ
  {
    [Dec(a[0]), Dec(a[1]), Dec(a[2]), Dec(a[3])]
  }

  lemma QuadPartsAreOctets(a: seq<byte>)
    requires |a| == INADDRSZ
    ensures IsQuad(QuadParts(a)) && QuadValue(QuadParts(a)) == a
    ensures Free(QuadParts(a), '.') && QuadText(a) == Join(QuadParts(a), '.')
  {
    var p := QuadParts(a);
    forall k | 0 <= k < 4
      ensures IsOctet(p[k]) && DecValue(p[k]) == a[k] && '.' !in p[k]
    {
      DecRoundTrip(a[k]);
    }
    JoinFour(p);
  }

  lemma JoinFour(p: seq<string>)
    requires |p| == 4
    ensures Join(p, '.') == p[0] + "." + p[1] + "." + p[2] + "." + p[3]
  {
    assert p[..3][..2] == p[..2] && p[..2][..1] == p[..1];
    assert Join(p[..2], '.') == p[0] + "." + p[1];
    assert Join(p[..3], '.') == Join(p[..2], '.') + "." + p[2];
  }

  /** Parsing what inet_ntop4 prints gives back the address. */
  lemma QuadRoundTrip(a: seq<byte>)
    requires |a| == INADDRSZ
    ensures Quad(QuadText(a)) == Some(a)
  {
    QuadPartsAreOctets(a);
    SplitJoin(QuadParts(a), '.');
  }

  lemma QuadTextShape(a: seq<byte>)
    requires |a| == INADDRSZ
    ensures 7 <= |QuadText(a)| <= 15
    ensures forall c | c in QuadText(a) :: IsDigit(c) || c == '.'
  {
    forall k | 0 <= k < 4
      ensures 1 <= |Dec(a[k])| <= 3 && IsDigits(Dec(a[k]))
    {
      DecLength(a[k]);
      DecRoundTrip(a[k]);
    }
  }

  // ------------------------------------------------------------- inet_aton

  /** The first number that an unsigned long cannot hold: it has 64 bits where long is
      wide, else 32. */
  function Limit(wide: bool): nat {
    if wide then 0x1_0000_0000_0000_0000 else 0x1_0000_0000
  }

  /** What an unsigned long keeps of a number. */
  function ULong(x: nat, wide: bool): (u: nat)
    ensures x < Limit(wide) ==> u == x
    ensures u <= x
  {
    x % Limit(wide)
  }

  /** The decimal value as an unsigned long accumulates it. */
  function WrappedValue(s: string, wide: bool): (v: nat)
    requires IsDigits(s)
  {
    if s == "" then 0
    else ULong(WrappedValue(s[..|s| - 1], wide) * 10 + DigitVal(s[|s| - 1]), wide)
  }

  predicate AtonPart(g: string, wide: bool)
  {
    IsDigits(g) && WrappedValue(g, wide) <= 255
  }

  /** inet_aton takes one to four parts and lets any of them be empty. */
  predicate AtonParts(parts: seq<string>, wide: bool)
  {
    1 <= |parts| <= 4 && forall k | 0 <= k < |parts| :: AtonPart(parts[k], wide)
  }

  /** Parts from the most significant byte down; missing ones at the end are zero. */
  function AtonValue(parts: seq<string>, wide: bool): (a: seq<byte>)
    requires AtonParts(parts, wide)
    ensures |a| == INADDRSZ
  {
    seq(INADDRSZ, k requires 0 <= k < INADDRSZ =>
      if k < |parts| then WrappedValue(parts[k], wide) else 0)
  }

  function Aton(s: string, wide: bool): Option<seq<byte>>
  {
    var parts := Split(s, '.');
    if AtonParts(parts, wide) then Some(AtonValue(parts, wide)) else None
  }

  /** One to four groups of digits, any of them empty, with a dot between each two, and the
      bytes they are worth to an unsigned long; missing ones are zero. */
  ghost predicate SpellsAton(p: seq<string>, s: string, a: seq<byte>, wide: bool) {
    && 1 <= |p| <= 4 && |a| == 4 && s == Join(p, '.')
    && forall k | 0 <= k < 4 ::
         if k < |p| then
           && IsDigits(p[k])
           && a[k] == DecValue(p[k]) % (if wide then 0x1_0000_0000_0000_0000 else 0x1_0000_0000)
         else a[k] == 0
  }

  /** The grammar of inet_aton. */
  lemma AtonGrammar(s: string, a: seq<byte>, wide: bool)
    ensures Aton(s, wide) == Some(a) <==> exists p :: SpellsAton(p, s, a, wide)
  {
    if Aton(s, wide) == Some(a) {
      var p := Split(s, '.');
      JoinSplit(s, '.');
      PartsAreWorth(p, wide);
      assert SpellsAton(p, s, a, wide);
    }
    if p :| SpellsAton(p, s, a, wide) {
      DigitsFree(p);
      SplitJoin(p, '.');
      PartsAreWorth(p, wide);
      assert AtonValue(p, wide) == a;
    }
  }

  lemma PartsAreWorth(p: seq<string>, wide: bool)
    ensures forall k | 0 <= k < |p| && IsDigits(p[k]) ::
              WrappedValue(p[k], wide) ==
              DecValue(p[k]) % (if wide then 0x1_0000_0000_0000_0000 else 0x1_0000_0000)
  {
    forall k | 0 <= k < |p| && IsDigits(p[k])
      ensures WrappedValue(p[k], wide) == DecValue(p[k]) % Limit(wide)
    {
      WrappedIsModulo(p[k], wide);
    }
  }

  /** A dotted quad is accepted by inet_aton with the same address. */
  lemma QuadImpliesAton(s: string, wide: bool)
    ensures Quad(s).Some? ==> Aton(s, wide) == Quad(s)
  {
    if Quad(s).Some? {
      var parts := Split(s, '.');
      forall k | 0 <= k < 4
        ensures AtonPart(parts[k], wide) && WrappedValue(parts[k], wide) == DecValue(parts[k])
      {
        assert IsOctet(parts[k]);
        NoWrap(parts[k], wide);
      }
      assert AtonValue(parts, wide) == QuadValue(parts);
    }
  }

  lemma {:induction false} NoWrap(g: string, wide: bool)
    requires IsDigits(g) && DecValue(g) < Limit(wide)
    ensures WrappedValue(g, wide) == DecValue(g)
    decreases |g|
  {
    if g != "" {
      NoWrap(g[..|g| - 1], wide);
    }
  }

  /** Digit by digit or at the end, the wrapping is the same. */
  lemma {:induction false} WrappedIsModulo(g: string, wide: bool)
    requires IsDigits(g)
    ensures WrappedValue(g, wide) == DecValue(g) % Limit(wide)
    decreases |g|
  {
    if g != "" {
      var front, d := g[..|g| - 1], DigitVal(g[|g| - 1]);
      WrappedIsModulo(front, wide);
      AppendModulo(DecValue(front), d, wide);
    }
  }

  lemma AppendModulo(x: nat, d: nat, wide: bool)
    ensures (x % Limit(wide) * 10 + d) % Limit(wide) == (x * 10 + d) % Limit(wide)
  {
    var m := Limit(wide);
    var q, r := x / m, x % m;
    assert x == q * m + r;
    assert x * 10 + d == (q * 10) * m + (r * 10 + d);
    SameRemainder(r * 10 + d, q * 10, wide);
  }

  lemma SameRemainder(y: nat, q: nat, wide: bool)
    ensures (q * Limit(wide) + y) % Limit(wide) == y % Limit(wide)
  {
    var m := Limit(wide);
    var k, r := y / m, y % m;
    assert y == k * m + r;
    assert q * m + y == (q + k) * m + r;
    Remainder((q + k) * m + r, q + k, r, wide);
  }

  lemma Remainder(x: nat, q: nat, r: nat, wide: bool)
    requires x == q * Limit(wide) + r && r < Limit(wide)
    ensures x % Limit(wide) == r
  {
  }

  /** The four bytes of a 32-bit address as htonl() lays them out. */
  function NetworkBytes(addr: nat): (a: seq<byte>)
    ensures |a| == INADDRSZ
  {
    [addr / 0x100_0000 % 256, addr / 0x1_0000 % 256, addr / 0x100 % 256, addr % 256]
  }

  /** The loop of inet_aton from index i on, NUL included: acc is the part being
      read, addr the parts before it. */
  function AtonFrom(s: string, i: nat, acc: nat, addr: nat, dots: nat, wide: bool): Option<nat>
    requires i <= |s|
    decreases |s| - i
  {
    if i == |s| then
      if acc > 255 then None else Some(Normalize(ULong(addr * 256 + acc, wide), dots, wide))
    else if IsDigit(s[i]) then
      AtonFrom(s, i + 1, ULong(acc * 10 + DigitVal(s[i]), wide), addr, dots, wide)
    else if s[i] != '.' || dots + 1 > 3 || acc > 255 then None
    else AtonFrom(s, i + 1, 0, ULong(addr * 256 + acc, wide), dots + 1, wide)
  }

  function Normalize(addr: nat, dots: nat, wide: bool): nat
  {
    match dots
    case 0 => ULong(addr * 0x100_0000, wide)
    case 1 => ULong(addr * 0x1_0000, wide)
    case 2 => ULong(addr * 0x100, wide)
    case _ => addr
  }

  /** The parts read so far as one number, and whether the loop is still running. */
  ghost function Number(parts: seq<string>, wide: bool): nat
    requires forall k | 0 <= k < |parts| :: IsDigits(parts[k])
  {
    if parts == [] then 0
    else Number(parts[..|parts| - 1], wide) * 256 + WrappedValue(parts[|parts| - 1], wide)
  }

  ghost predicate AtonRunning(parts: seq<string>, wide: bool)
  {
    && 1 <= |parts| <= 4 && IsDigits(parts[|parts| - 1])
    && forall k | 0 <= k < |parts| - 1 :: AtonPart(parts[k], wide)
  }

  lemma {:induction false} NumberBound(parts: seq<string>, wide: bool)
    requires |parts| <= 4 && forall k | 0 <= k < |parts| :: AtonPart(parts[k], wide)
    ensures forall k | 0 <= k < |parts| :: IsDigits(parts[k])
    ensures Number(parts, wide) < [1, 0x100, 0x1_0000, 0x100_0000, 0x1_0000_0000][|parts|]
  {
    if parts != [] {
      NumberBound(parts[..|parts| - 1], wide);
    }
  }

  ghost function AtonResult(parts: seq<string>, wide: bool): Option<nat> {
    if AtonParts(parts, wide) then Some(Normalize(Number(parts, wide), |parts| - 1, wide)) else None
  }

  /** The loop from index i on, when the text before i is cut into these parts. */
  ghost function AtonRest(s: string, i: nat, parts: seq<string>, wide: bool): Option<nat>
    requires i <= |s| && AtonRunning(parts, wide)
  {
    var n := |parts| - 1;
    AtonFrom(s, i, WrappedValue(parts[n], wide), Number(parts[..n], wide), n, wide)
  }

  lemma {:induction false} AtonMeaning(s: string, i: nat, parts: seq<string>, wide: bool)
    requires i <= |s| && parts == Split(s[..i], '.') && AtonRunning(parts, wide)
    ensures AtonRest(s, i, parts, wide) == AtonResult(Split(s, '.'), wide)
    decreases |s| - i
  {
    if i == |s| {
      assert s[..i] == s;
      AtonEnd(s, parts, wide);
    } else {
      SplitAt(s, i, '.');
      if IsDigit(s[i]) {
        AtonDigit(s, i, parts, wide);
        AtonMeaning(s, i + 1, Grow(parts, [s[i]]), wide);
      } else if s[i] == '.' && |parts| <= 3 && WrappedValue(parts[|parts| - 1], wide) <= 255 {
        AtonDot(s, i, parts, wide);
        AtonMeaning(s, i + 1, parts + [""], wide);
      } else {
        AtonStopped(s, i, parts, wide);
      }
    }
  }

  lemma AtonEnd(s: string, parts: seq<string>, wide: bool)
    requires AtonRunning(parts, wide)
    ensures AtonRest(s, |s|, parts, wide) == AtonResult(parts, wide)
  {
    NumberBound(parts[..|parts| - 1], wide);
  }

  lemma AtonDigit(s: string, i: nat, parts: seq<string>, wide: bool)
    requires i < |s| && AtonRunning(parts, wide) && IsDigit(s[i])
    ensures var next := Grow(parts, [s[i]]);
            AtonRunning(next, wide) && AtonRest(s, i, parts, wide) == AtonRest(s, i + 1, next, wide)
  {
    var next, n := Grow(parts, [s[i]]), |parts| - 1;
    var last := parts[n];
    assert next[..n] == parts[..n];
    assert (last + [s[i]])[..|last|] == last;
    assert WrappedValue(next[n], wide) == ULong(WrappedValue(last, wide) * 10 + DigitVal(s[i]), wide);
  }

  lemma AtonDot(s: string, i: nat, parts: seq<string>, wide: bool)
    requires i < |s| && AtonRunning(parts, wide) && |parts| <= 3 && s[i] == '.'
    requires WrappedValue(parts[|parts| - 1], wide) <= 255
    ensures var next := parts + [""];
            AtonRunning(next, wide) && AtonRest(s, i, parts, wide) == AtonRest(s, i + 1, next, wide)
  {
    var next, n := parts + [""], |parts| - 1;
    assert forall k | 0 <= k < |parts| :: AtonPart(parts[k], wide);
    NumberBound(parts, wide);
    assert next[..n + 1] == parts;
    assert Number(parts, wide) == ULong(Number(parts[..n], wide) * 256 + WrappedValue(parts[n], wide), wide);
    assert WrappedValue("", wide) == 0;
  }

  lemma AtonStopped(s: string, i: nat, parts: seq<string>, wide: bool)
    requires i < |s| && parts == Split(s[..i], '.') && AtonRunning(parts, wide)
    requires !IsDigit(s[i])
    requires s[i] != '.' || |parts| == 4 || WrappedValue(parts[|parts| - 1], wide) > 255
    ensures AtonRest(s, i, parts, wide) == AtonResult(Split(s, '.'), wide) == None
  {
    hide Split, Number, ULong, Normalize, WrappedValue;
    var late, n := Split(s, '.'), |parts| - 1;
    SplitAt(s, i, '.');
    SplitPrefix(s, '.', i + 1);
    if s[i] == '.' {
      assert Split(s[..i + 1], '.')[..n + 1] == parts;
      assert parts[n] == late[..n + 1][n] == late[n];
    } else {
      assert s[i] in (parts[n] + [s[i]]);
      assert s[i] in late[n];
    }
  }

  /** At the end of the text, the number is the parts placed from the top byte down. */
  lemma AtonPlaces(parts: seq<string>, wide: bool)
    requires AtonParts(parts, wide)
    ensures NetworkBytes(Normalize(Number(parts, wide), |parts| - 1, wide)) == AtonValue(parts, wide)
  {
    var v := AtonValue(parts, wide);
    NumberIs(parts, wide);
    PlacesOf(v[0], v[1], v[2], v[3]);
  }

  lemma NumberIs(parts: seq<string>, wide: bool)
    requires AtonParts(parts, wide)
    ensures var v := AtonValue(parts, wide);
            Normalize(Number(parts, wide), |parts| - 1, wide) == Placed(v[0], v[1], v[2], v[3])
  {
    hide WrappedValue, Number, ULong, IsDigits, Placed, AtonValue;
    var n := |parts|;
    ValueParts(parts, wide);
    assert forall k | 0 <= k < n :: AtonPart(parts[k], wide);
    NumberOf(parts, wide);
    var v := AtonValue(parts, wide);
    NormalizePlaces(v[0], v[1], v[2], v[3], n, Number(parts, wide), wide);
  }

  lemma ValueParts(parts: seq<string>, wide: bool)
    requires AtonParts(parts, wide)
    ensures forall k | 0 <= k < 4 ::
              AtonValue(parts, wide)[k] == if k < |parts| then WrappedValue(parts[k], wide) else 0
  {
  }

  lemma NumberOf(parts: seq<string>, wide: bool)
    requires 1 <= |parts| <= 4 && forall j | 0 <= j < |parts| :: IsDigits(parts[j])
    ensures var w := seq(|parts|, k requires 0 <= k < |parts| => WrappedValue(parts[k], wide));
            Number(parts, wide) == Digits256(w)
  {
    hide Number, WrappedValue, IsDigits;
    var n := |parts|;
    assert parts[..n] == parts;
    NumberSnoc(parts, 0, wide);
    if n >= 2 {
      NumberSnoc(parts, 1, wide);
    }
    if n >= 3 {
      NumberSnoc(parts, 2, wide);
    }
    if n == 4 {
      NumberSnoc(parts, 3, wide);
    }
  }

  /** One to four digits of base 256. */
  function Digits256(w: seq<nat>): nat
    requires 1 <= |w| <= 4
  {
    if |w| == 1 then w[0]
    else if |w| == 2 then w[0] * 256 + w[1]
    else if |w| == 3 then (w[0] * 256 + w[1]) * 256 + w[2]
    else ((w[0] * 256 + w[1]) * 256 + w[2]) * 256 + w[3]
  }

  lemma NormalizePlaces(a: byte, b: byte, c: byte, d: byte, n: nat, number: nat, wide: bool)
    requires 1 <= n <= 4 && (n < 2 ==> b == 0) && (n < 3 ==> c == 0) && (n < 4 ==> d == 0)
    requires number == Digits256([a, b, c, d][..n])
    ensures Normalize(number, n - 1, wide) == Placed(a, b, c, d)
  {
    hide ULong;
    var w: seq<nat> := [a, b, c, d];
    assert w[..n][0] == a && (n >= 2 ==> w[..n][1] == b) && (n >= 3 ==> w[..n][2] == c) && (n == 4 ==> w[..n][3] == d);
  }

  lemma NumberSnoc(parts: seq<string>, k: nat, wide: bool)
    requires k < |parts| && forall j | 0 <= j < |parts| :: IsDigits(parts[j])
    ensures Number(parts[..k + 1], wide) == Number(parts[..k], wide) * 256 + WrappedValue(parts[k], wide)
    ensures k == 0 ==> Number(parts[..k], wide) == 0
  {
    assert parts[..k + 1][..k] == parts[..k];
  }

  function Placed(a: byte, b: byte, c: byte, d: byte): nat {
    a * 0x100_0000 + b * 0x1_0000 + c * 0x100 + d
  }

  lemma PlacesOf(a: byte, b: byte, c: byte, d: byte)
    ensures NetworkBytes(Placed(a, b, c, d)) == [a, b, c, d]
  {
    Place(0, a);
    Place(a, b);
    Place(a * 0x100 + b, c);
    Place(a * 0x1_0000 + b * 0x100 + c, d);
    assert Placed(a, b, c, d) / 0x1_0000 == Placed(a, b, c, d) / 0x100 / 0x100;
    assert Placed(a, b, c, d) / 0x100_0000 == Placed(a, b, c, d) / 0x100 / 0x100 / 0x100;
  }

  lemma Place(high: nat, low: byte)
    ensures (high * 0x100 + low) / 0x100 == high && (high * 0x100 + low) % 0x100 == low
  {
  }

  lemma AtonByLoop(cp: string, wide: bool)
    ensures var addr := AtonFrom(cp, 0, 0, 0, 0, wide);
            Aton(cp, wide) == if addr.Some? then Some(NetworkBytes(addr.value)) else None
  {
    assert cp[..0] == "" && [""][..0] == [];
    AtonMeaning(cp, 0, [""], wide);
    if Aton(cp, wide).Some? {
      AtonPlaces(Split(cp, '.'), wide);
    }
  }

  /** inet_aton. The result is
      s_addr, as its four bytes in memory. */
  method InetAton(cp: string, wide: bool) returns (ok: bool, sAddr: seq<byte>)
    ensures ok <==> Aton(cp, wide).Some?
    ensures ok ==> sAddr == Aton(cp, wide).value
  {
    hide Split, Aton, ULong, NetworkBytes;
    AtonByLoop(cp, wide);
    var dots, acc, addr, i, more := 0, 0, 0, 0, true;
    sAddr := [];
    while more
      invariant 0 <= i <= |cp| + 1 && 0 <= acc && 0 <= addr && (more <==> i <= |cp|)
      invariant more ==> AtonFrom(cp, i, acc, addr, dots, wide) == AtonFrom(cp, 0, 0, 0, 0, wide)
      invariant !more ==> AtonFrom(cp, 0, 0, 0, 0, wide) == Some(Normalize(addr, dots, wide))
      invariant 0 <= dots <= 3
      decreases |cp| + 1 - i
    {
      if i < |cp| && IsDigit(cp[i]) {
        acc := ULong(acc * 10 + DigitVal(cp[i]), wide);
      } else if i == |cp| || cp[i] == '.' {
        if i < |cp| {
          dots := dots + 1;
          if dots > 3 {
            return false, [];
          }
        }
        if acc > 255 {
          return false, [];
        }
        addr := ULong(addr * 256 + acc, wide);
        acc := 0;
      } else {
        return false, [];
      }
      more := i < |cp|;
      i := i + 1;
    }
    if dots < 3 {
      addr := Normalize(addr, dots, wide);
    }
    return true, NetworkBytes(addr);
  }

  /** What inet_pton4 wants of a text that inet_aton accepts: all four parts, none of them
      empty, and no number that an unsigned long cannot hold. */
  ghost predicate Strict(parts: seq<string>, wide: bool) {
    && |parts| == INADDRSZ
    && forall k | 0 <= k < |parts| ::
         parts[k] != "" && IsDigits(parts[k]) && DecValue(parts[k]) < Limit(wide)
  }

  /** Of the texts that inet_aton accepts, inet_pton4 accepts exactly the strict ones. */
  lemma AtonIsLenient(s: string, wide: bool)
    requires Aton(s, wide).Some?
    ensures Quad(s).Some? <==> Strict(Split(s, '.'), wide)
    ensures Quad(s).Some? ==> Quad(s) == Aton(s, wide)
  {
    hide Split;
    var parts := Split(s, '.');
    QuadImpliesAton(s, wide);
    if Strict(parts, wide) {
      forall k | 0 <= k < 4
        ensures IsOctet(parts[k])
      {
        assert AtonPart(parts[k], wide);
        NoWrap(parts[k], wide);
      }
    }
  }

  /** Texts that only inet_aton accepts: with a part missing or empty, or with one that wraps
      around to a small number. */
  lemma OnlyAton(wide: bool)
    ensures Quad("").None? && Aton("", wide) == Some([0, 0, 0, 0])
    ensures Quad("10").None? && Aton("10", wide) == Some([10, 0, 0, 0])
    ensures var s := Dec(Limit(wide) + 7) + ".0.0.1";
            Quad(s).None? && Aton(s, wide) == Some([7, 0, 0, 1])
  {
    hide Split, Quad, Aton, Dec;
    EmptyText(wide);
    OnePart(wide);
    Wraps(wide);
  }

  lemma EmptyText(wide: bool)
    ensures Quad("").None? && Aton("", wide) == Some([0, 0, 0, 0])
  {
    assert Split("", '.') == [""];
    assert Aton("", wide).value == [0, 0, 0, 0];
  }

  lemma OnePart(wide: bool)
    ensures Quad("10").None? && Aton("10", wide) == Some([10, 0, 0, 0])
  {
    hide Split;
    SplitFree("10", '.');
    WrapTen(wide);
    assert Aton("10", wide).value == [10, 0, 0, 0];
  }

  lemma WrapTen(wide: bool)
    ensures IsDigits("10") && WrappedValue("10", wide) == 10
  {
    assert "10"[..1] == "1" && "1"[..0] == "";
    assert WrappedValue("", wide) == 0 && DigitVal('1') == 1;
    assert WrappedValue("1", wide) == 1;
  }

  lemma Wraps(wide: bool)
    ensures var s := Dec(Limit(wide) + 7) + ".0.0.1";
            Quad(s).None? && Aton(s, wide) == Some([7, 0, 0, 1])
  {
    hide Split, Dec, WrappedValue, DecValue, Join;
    var big := Dec(Limit(wide) + 7);
    var s, parts := big + ".0.0.1", [big, "0", "0", "1"];
    DecRoundTrip(Limit(wide) + 7);
    WrappedIsModulo(big, wide);
    SeventhPastLimit(wide);
    Digit('0', wide);
    Digit('1', wide);
    assert "0" == ['0'] && "1" == ['1'];
    assert Free(parts, '.');
    JoinFour(parts);
    assert s == big + "." + "0" + "." + "0" + "." + "1";
    SplitJoin(parts, '.');
    assert parts[0] == big && !IsOctet(parts[0]);
    assert AtonParts(parts, wide);
    assert AtonValue(parts, wide) == [7, 0, 0, 1];
  }

  lemma SeventhPastLimit(wide: bool)
    ensures (Limit(wide) + 7) % Limit(wide) == 7
  {
  }

  lemma Digit(c: char, wide: bool)
    requires IsDigit(c)
    ensures IsDigits([c]) && WrappedValue([c], wide) == DigitVal(c) && '.' !in [c]
  {
    assert [c][..0] == "" && WrappedValue("", wide) == 0;
  }
}
