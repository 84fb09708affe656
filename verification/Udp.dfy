/** UDP datagrams written to a raw socket and read back with pcap:
    udp_write of udpcksum/udpwrite.c and udp_check of udpcksum/udpread.c. */
module Udp {
  import opened Base
  import opened Checksum

  const IPHDR := 20
  const UDPHDR := 8
  const HEADERS := IPHDR + UDPHDR
  const IPPROTO_UDP: byte := 17
  const TTL_OUT: byte := 64

  /** An IPv4 address and a port, both as in memory in network order. */
  datatype Endpoint = Endpoint(addr: seq<byte>, port: seq<byte>) {
    predicate Valid() {
      |addr| == 4 && |port| == 2
    }
  }

  /** htons() of the low 16 bits of a number. */
  function Htons(n: nat): (b: seq<byte>)
    ensures |b| == 2
  {
    [n / 0x100 % 0x100, n % 0x100]
  }

  /** The header the checksum is taken over: the overlay of the IP header that puts zeros,
      protocol and length before the addresses, then the UDP header. */
  ghost function Overlay(local: Endpoint, dest: Endpoint, userlen: nat, sum: seq<byte>): (h: seq<byte>)
    requires local.Valid() && dest.Valid() && |sum| == 2
    ensures |h| == HEADERS
  {
    Before(local, dest, userlen) + sum
  }

  ghost function Before(local: Endpoint, dest: Endpoint, userlen: nat): (h: seq<byte>)
    requires local.Valid() && dest.Valid()
    ensures |h| == HEADERS - 2
  {
    Pseudo(local, dest, userlen) + local.port + dest.port + Htons(UDPHDR + userlen)
  }

  /** The checksum field: none, or the checksum with 0 replaced by 0xffff. */
  ghost function SumField(local: Endpoint, dest: Endpoint, data: seq<byte>, zerosum: bool, little: bool): (f: seq<byte>)
    requires local.Valid() && dest.Valid()
    ensures |f| == 2
  {
    var c := Cksum(Overlay(local, dest, |data|, [0, 0]) + data, little);
    if zerosum then [0, 0] else Stored(if c == 0 then 0xffff else c, little)
  }

  /** The IP header proper; the field of its checksum still holds the overlay's length. */
  ghost function IpHeader(local: Endpoint, dest: Endpoint, userlen: nat, lenField: seq<byte>): (h: seq<byte>)
    requires local.Valid() && dest.Valid() && |lenField| == 2
    ensures |h| == IPHDR
  {
    [0x45, 0] + lenField + [0, 0, 0, 0, TTL_OUT, IPPROTO_UDP] + Htons(UDPHDR + userlen)
    + local.addr + dest.addr
  }

  /** The datagram that udp_write sends. */
  ghost function Datagram(local: Endpoint, dest: Endpoint, data: seq<byte>, zerosum: bool,
                          lenField: seq<byte>, little: bool): (p: seq<byte>)
    requires local.Valid() && dest.Valid() && |lenField| == 2
    ensures |p| == HEADERS + |data|
  {
    IpHeader(local, dest, |data|, lenField)
    + local.port + dest.port + Htons(UDPHDR + |data|) + SumField(local, dest, data, zerosum, little) + data
  }

  /** Stores one field: the bytes of gap, between front and back, become those of field. */
  method Store(buf: array<byte>, off: nat, field: seq<byte>,
               ghost front: seq<byte>, ghost gap: seq<byte>, ghost back: seq<byte>)
    requires buf[..] == front + gap + back && |front| == off && |gap| == |field|
    modifies buf
    ensures buf[..] == front + field + back
  {
    Memcpy(buf, off, field);
  }

  /** The pseudo-header part of the overlay. */
  ghost function Pseudo(local: Endpoint, dest: Endpoint, userlen: nat): (h: seq<byte>)
    requires local.Valid() && dest.Valid()
    ensures |h| == IPHDR
  {
    Zeros(9) + [IPPROTO_UDP] + Htons(UDPHDR + userlen) + local.addr + dest.addr
  }

  /** bzero() of the headers, then the field ui_len. */
  method FillLength(buf: array<byte>, userlen: nat)
    requires buf.Length == HEADERS + userlen
    modifies buf
    ensures buf[..] == Zeros(10) + Htons(UDPHDR + userlen) + Zeros(16) + old(buf[HEADERS..])
  {
    hide Htons;
    ghost var data := buf[HEADERS..];
    Memcpy(buf, 0, Zeros(HEADERS));
    ZerosAround(data);
    Store(buf, 10, Htons(UDPHDR + userlen), Zeros(10), Zeros(2), Zeros(16) + data);
  }

  lemma ZerosAround(data: seq<byte>)
    ensures Zeros(HEADERS) + data == Zeros(10) + Zeros(2) + (Zeros(16) + data)
  {
  }

  /** Two fields next to each other, into zeros. */
  method StoreTwo(buf: array<byte>, off: nat, one: seq<byte>, two: seq<byte>,
                  ghost front: seq<byte>, ghost back: seq<byte>)
    requires buf[..] == front + Zeros(|one| + |two|) + back && |front| == off
    modifies buf
    ensures buf[..] == front + one + two + back
  {
    Store(buf, off, one, front, Zeros(|one|), Zeros(|two|) + back);
    Store(buf, off + |one|, two, front + one, Zeros(|two|), back);
  }

  method FillPseudo(buf: array<byte>, userlen: nat, local: Endpoint, dest: Endpoint)
    requires local.Valid() && dest.Valid() && buf.Length == HEADERS + userlen
    modifies buf
    ensures buf[..] == Pseudo(local, dest, userlen) + Zeros(8) + old(buf[HEADERS..])
  {
    hide Htons;
    ghost var data := buf[HEADERS..];
    ghost var len := Htons(UDPHDR + userlen);
    FillLength(buf, userlen);
    Store(buf, 9, [IPPROTO_UDP], Zeros(9), Zeros(1), len + Zeros(16) + data);
    ghost var front := Zeros(9) + [IPPROTO_UDP] + len;
    StoreTwo(buf, 12, local.addr, dest.addr, front, Zeros(8) + data);
  }

  /** The first half of udp_write: the overlay of the header, checksum field zero. */
  method FillOverlay(buf: array<byte>, userlen: nat, local: Endpoint, dest: Endpoint)
    requires local.Valid() && dest.Valid() && buf.Length == HEADERS + userlen
    modifies buf
    ensures buf[..] == Before(local, dest, userlen) + [0, 0] + old(buf[HEADERS..])
  {
    hide Htons, Pseudo;
    ghost var data, front := buf[HEADERS..], Pseudo(local, dest, userlen);
    PseudoLength(local, dest, userlen);
    FillPseudo(buf, userlen, local, dest);
    StoreTwo(buf, 20, local.port, dest.port, front, Zeros(4) + data);
    CopyLength(buf, userlen, front + local.port + dest.port, data);
  }

  lemma PseudoLength(local: Endpoint, dest: Endpoint, userlen: nat)
    requires local.Valid() && dest.Valid()
    ensures Pseudo(local, dest, userlen)[10..12] == Htons(UDPHDR + userlen)
  {
  }

  /** ui_ulen = ui_len */
  method CopyLength(buf: array<byte>, ghost userlen: nat, ghost front: seq<byte>, ghost data: seq<byte>)
    requires |front| == 24 && front[10..12] == Htons(UDPHDR + userlen)
    requires buf[..] == front + Zeros(4) + data
    modifies buf
    ensures buf[..] == front + Htons(UDPHDR + userlen) + [0, 0] + data
  {
    hide Htons;
    assert buf[10..12] == buf[..][10..12] == Htons(UDPHDR + userlen);
    Store(buf, 24, buf[10..12], front, Zeros(2), Zeros(2) + data);
  }

  /** The checksum over the whole buffer, into the field at 26. */
  method FillChecksum(buf: array<byte>, ghost before: seq<byte>, ghost data: seq<byte>, little: bool)
    requires |before| == HEADERS - 2 && buf[..] == before + [0, 0] + data && buf.Length < 0x8000_0000
    modifies buf
    ensures var c := Cksum(before + [0, 0] + data, little);
            buf[..] == before + Stored(if c == 0 then 0xffff else c, little) + data
  {
    var sum := InCksum(buf[..], little);
    Memcpy(buf, 26, Stored(sum, little));
    if sum == 0 {
      Memcpy(buf, 26, Stored(0xffff, little));
    }
  }

  /** udp_write: fills the headers before the user data in place. The 16-bit fields keep what
      they can of a length no IPv4 datagram has. htonsLen says whether
      the system wants ip_len in network order (Linux, OpenBSD) or in host order. */
  method UdpWrite(buf: array<byte>, userlen: nat, local: Endpoint, dest: Endpoint,
                  zerosum: bool, htonsLen: bool, little: bool)
    requires local.Valid() && dest.Valid()
    requires buf.Length == HEADERS + userlen && buf.Length < 0x8000_0000
    modifies buf
    ensures buf[..] == Datagram(local, dest, old(buf[HEADERS..]), zerosum,
                                LenField(HEADERS + userlen, htonsLen, little), little)
  {
    ghost var data := buf[HEADERS..];
    FillOverlay(buf, userlen, local, dest);
    if !zerosum {
      FillChecksum(buf, Before(local, dest, userlen), data, little);
    }
    ghost var sum := SumField(local, dest, data, zerosum, little);
    ghost var lenField := LenField(HEADERS + userlen, htonsLen, little);
    FromProtocolOn(local, dest, data, lenField, sum);
    FillIp(buf, LenField(HEADERS + userlen, htonsLen, little), Tail(local, dest, data, sum));
  }

  /** The packet from the protocol field at byte 9 on, the same in the overlay. */
  ghost function Tail(local: Endpoint, dest: Endpoint, data: seq<byte>, sum: seq<byte>): seq<byte>
    requires local.Valid() && dest.Valid()
  {
    [IPPROTO_UDP] + Htons(UDPHDR + |data|) + local.addr + dest.addr + local.port + dest.port
    + Htons(UDPHDR + |data|) + sum + data
  }

  lemma FromProtocolOn(local: Endpoint, dest: Endpoint, data: seq<byte>,
                       lenField: seq<byte>, sum: seq<byte>)
    requires local.Valid() && dest.Valid() && |lenField| == 2
    ensures Before(local, dest, |data|) + sum + data == Zeros(9) + Tail(local, dest, data, sum)
    ensures IpHeader(local, dest, |data|, lenField) + local.port + dest.port + Htons(UDPHDR + |data|) + sum + data
            == [0x45, 0] + lenField + [0, 0, 0, 0, TTL_OUT] + Tail(local, dest, data, sum)
  {
  }

  /** The second half: the rest of the IP header goes over the zeros of the overlay. */
  method FillIp(buf: array<byte>, lenField: seq<byte>, ghost tail: seq<byte>)
    requires buf[..] == Zeros(9) + tail && |lenField| == 2
    modifies buf
    ensures buf[..] == [0x45, 0] + lenField + [0, 0, 0, 0, TTL_OUT] + tail
  {
    ghost var front := [0x45, 0] + lenField;
    Store(buf, 0, [0x45, 0], [], Zeros(2), Zeros(7) + tail);
    Store(buf, 2, lenField, [0x45, 0], Zeros(2), Zeros(5) + tail);
    Store(buf, 4, [0, 0, 0, 0], front, Zeros(4), Zeros(1) + tail);
    Store(buf, 8, [TTL_OUT], front + [0, 0, 0, 0], Zeros(1), tail);
    assert front + [0, 0, 0, 0] + [TTL_OUT] == [0x45, 0] + lenField + [0, 0, 0, 0, TTL_OUT];
  }

  /** The 16 bits of ip_len, in network or in host order. */
  function LenField(n: nat, htonsLen: bool, little: bool): (f: seq<byte>)
    ensures |f| == 2
  {
    if htonsLen then Htons(n) else Stored(n % 0x1_0000, little)
  }

  // ------------------------------------------- the datagram is right

  /** A field of two bytes holds the low 16 bits of a number, high byte first or last. */
  ghost predicate Field16(b: seq<byte>, n: nat, highFirst: bool) {
    |b| == 2 && n % 0x1_0000 == if highFirst then Pair(b[0], b[1]) else Pair(b[1], b[0])
  }

  /** Every field of the datagram at its place in the IP and UDP headers. */
  lemma DatagramFields(local: Endpoint, dest: Endpoint, data: seq<byte>, zerosum: bool, htonsLen: bool, little: bool)
    requires local.Valid() && dest.Valid()
    ensures var p := Datagram(local, dest, data, zerosum, LenField(HEADERS + |data|, htonsLen, little), little);
            && |p| == 28 + |data| && p[0] == 0x45 && p[1] == 0
            && Field16(p[2..4], 28 + |data|, htonsLen || !little)
            && p[4..8] == [0, 0, 0, 0] && p[8] == 64 && p[9] == 17
            && p[12..16] == local.addr && p[16..20] == dest.addr
            && p[20..22] == local.port && p[22..24] == dest.port
            && Field16(p[24..26], 8 + |data|, true)
            && (zerosum ==> p[26..28] == [0, 0]) && p[28..] == data
  {
    hide Htons, Stored, Field16, IpHeader, SumField;
    Sixteen(HEADERS + |data|, little);
    Sixteen(UDPHDR + |data|, little);
    var lenField := LenField(HEADERS + |data|, htonsLen, little);
    HeaderFields(local, dest, |data|, lenField);
    var h, sum := IpHeader(local, dest, |data|, lenField), SumField(local, dest, data, zerosum, little);
    UdpFields(h, local.port, dest.port, Htons(UDPHDR + |data|), sum, data);
    if zerosum {
      NoSum(local, dest, data, little);
    }
  }

  lemma NoSum(local: Endpoint, dest: Endpoint, data: seq<byte>, little: bool)
    requires local.Valid() && dest.Valid()
    ensures SumField(local, dest, data, true, little) == [0, 0]
  {
  }

  lemma UdpFields(h: seq<byte>, src: seq<byte>, dst: seq<byte>, len: seq<byte>, sum: seq<byte>, data: seq<byte>)
    requires |h| == 20 && |src| == |dst| == |len| == |sum| == 2
    ensures var p := h + src + dst + len + sum + data;
            && |p| == 28 + |data| && p[0] == h[0] && p[1] == h[1] && p[8] == h[8] && p[9] == h[9]
            && p[2..4] == h[2..4] && p[4..8] == h[4..8] && p[12..16] == h[12..16] && p[16..20] == h[16..20]
            && p[20..22] == src && p[22..24] == dst && p[24..26] == len && p[26..28] == sum && p[28..] == data
  {
  }

  lemma HeaderFields(local: Endpoint, dest: Endpoint, userlen: nat, lenField: seq<byte>)
    requires local.Valid() && dest.Valid() && |lenField| == 2
    ensures var h := IpHeader(local, dest, userlen, lenField);
            && h[0] == 0x45 && h[1] == 0 && h[2..4] == lenField && h[4..8] == [0, 0, 0, 0]
            && h[8] == 64 && h[9] == 17 && h[12..16] == local.addr && h[16..20] == dest.addr
  {
  }

  lemma Sixteen(n: nat, little: bool)
    ensures Field16(Htons(n), n, true) && Field16(Stored(n % 0x1_0000, little), n, !little)
  {
  }

  /** What RFC 768 has the receiver sum: the pseudo-header made of the packet's own
      fields, the UDP header and the data. */
  ghost function Covered(p: seq<byte>): seq<byte>
    requires |p| >= HEADERS
  {
    p[12..20] + [0, p[9]] + p[24..26] + p[IPHDR..]
  }

  lemma EvenConcat(a: seq<byte>, b: seq<byte>)
    requires |a| % 2 == 0 && |b| % 2 == 0
    ensures |a + b| % 2 == 0
  {
  }

  /** Whole words can change places. */
  lemma SameSum(x: seq<byte>, y: seq<byte>, rest: seq<byte>, little: bool)
    requires |x| % 2 == 0 && |y| % 2 == 0
    ensures Sum(Words(x + y + rest, little)) == Sum(Words(y + x + rest, little))
  {
    EvenConcat(x, y);
    EvenConcat(y, x);
    SumOfParts(x + y, rest, little);
    SumOfParts(x, y, little);
    SumOfParts(y + x, rest, little);
    SumOfParts(y, x, little);
  }

  /** The datagram's checksum, if it has one, is never sent as zero and passes the
      receiver's sum over the fields of the packet itself. */
  lemma WrittenDatagramVerifies(local: Endpoint, dest: Endpoint, data: seq<byte>,
                                lenField: seq<byte>, little: bool)
    requires local.Valid() && dest.Valid() && |lenField| == 2 && HEADERS + |data| < 0x1_0000
    ensures var p := Datagram(local, dest, data, false, lenField, little);
            p[26..28] != [0, 0] && Cksum(Covered(p), little) == 0
  {
    var p := Datagram(local, dest, data, false, lenField, little);
    var before, sum := Before(local, dest, |data|), SumField(local, dest, data, false, little);
    SumFieldVerifies(before, data, little);
    assert p[26..28] == sum;
    CoveredParts(local, dest, data, lenField, sum);
    var x, y := Zeros(8), [0, IPPROTO_UDP] + Htons(UDPHDR + |data|);
    SwapParts(x, y, local.addr + dest.addr,
              local.port + dest.port + Htons(UDPHDR + |data|) + sum + data, little);
  }

  lemma SumFieldVerifies(before: seq<byte>, data: seq<byte>, little: bool)
    requires |before| == HEADERS - 2 && HEADERS + |data| < 0x1_0000
    ensures var taken := Cksum(before + [0, 0] + data, little);
            var c: word := if taken == 0 then 0xffff else taken;
            Stored(c, little) != [0, 0] && Cksum(before + Stored(c, little) + data, little) == 0
  {
    var taken := Cksum(before + [0, 0] + data, little);
    var c: word := if taken == 0 then 0xffff else taken;
    StoredNotZero(c, little);
    StoredChecksumVerifies(before, data, c, little);
  }

  lemma CoveredParts(local: Endpoint, dest: Endpoint, data: seq<byte>,
                     lenField: seq<byte>, sum: seq<byte>)
    requires local.Valid() && dest.Valid() && |lenField| == 2 && |sum| == 2
    ensures var p := IpHeader(local, dest, |data|, lenField)
                     + local.port + dest.port + Htons(UDPHDR + |data|) + sum + data;
            var y := [0, IPPROTO_UDP] + Htons(UDPHDR + |data|);
            var rest := local.port + dest.port + Htons(UDPHDR + |data|) + sum + data;
            && Covered(p) == (local.addr + dest.addr) + y + rest
            && Before(local, dest, |data|) + sum + data == Zeros(8) + (y + (local.addr + dest.addr) + rest)
  {
  }

  lemma SwapParts(zeros: seq<byte>, x: seq<byte>, y: seq<byte>, rest: seq<byte>, little: bool)
    requires zeros == Zeros(8) && |x| == 4 && |y| == 8 && |rest| < 0x1_0000
    requires Cksum(zeros + (x + y + rest), little) == 0
    ensures Cksum(y + x + rest, little) == 0
  {
    hide Words, Sum, Sum1, Residue;
    CksumIs(zeros + (x + y + rest), little);
    CksumIs(y + x + rest, little);
    SumOfParts(zeros, x + y + rest, little);
    ZeroWords(zeros, little);
    SameSum(x, y, rest, little);
    Sum1IsResidue(Words(zeros + (x + y + rest), little));
    Sum1IsResidue(Words(y + x + rest, little));
  }

  lemma ZeroWords(zeros: seq<byte>, little: bool)
    requires zeros == Zeros(8)
    ensures Sum(Words(zeros, little)) == 0
  {
    SumOfZeros(Words(zeros, little));
  }

  lemma {:induction false} SumOfZeros(w: seq<word>)
    requires forall k | 0 <= k < |w| :: w[k] == 0
    ensures Sum(w) == 0
  {
    if w != [] {
      SumOfZeros(w[..|w| - 1]);
    }
  }

  lemma StoredNotZero(c: word, little: bool)
    requires c != 0
    ensures Stored(c, little) != [0, 0]
  {
  }

  // ------------------------------------------- reading it back

  datatype Check = Accepted | Quit(reason: string)

  /** IP version 4, and lengths that fit together. */
  predicate Measured(p: seq<byte>) {
    |p| >= HEADERS && p[0] / 16 == 4 && IPHDR <= p[0] % 16 * 4 <= |p| - UDPHDR
  }

  /** What a captured IP datagram has to be for udp_check to return it. */
  predicate Acceptable(p: seq<byte>, little: bool) {
    Measured(p) && Cksum(p[..p[0] % 16 * 4], little) == 0 && p[9] == IPPROTO_UDP
  }

  /** Version 4, a header of 20 bytes at least that leaves 8 for UDP and sums to 0, protocol 17. */
  lemma AcceptableInFull(p: seq<byte>, little: bool)
    ensures Acceptable(p, little) <==>
            && |p| >= 28 && p[0] / 16 == 4 && p[9] == 17
            && var hlen := p[0] % 16 * 4; 20 <= hlen <= |p| - 8 && Cksum(p[..hlen], little) == 0
  {
  }

  /** What udp_check leaves of it: once the lengths are right, ip_sum is the sum of the header. */
  function Checked(p: seq<byte>, little: bool): (q: seq<byte>)
    ensures |q| == |p|
  {
    if Measured(p) then p[..10] + Stored(Cksum(p[..p[0] % 16 * 4], little), little) + p[12..] else p
  }

  /** udp_check: the headers are verified in order; ip_sum is overwritten by the sum. */
  method UdpCheck(ptr: array<byte>, little: bool) returns (r: Check)
    requires ptr.Length < 0x8000_0000
    modifies ptr
    ensures r == Accepted <==> Acceptable(old(ptr[..]), little)
    ensures ptr[..] == Checked(old(ptr[..]), little)
    ensures r == Accepted ==> ptr[..] == old(ptr[..10]) + [0, 0] + old(ptr[12..])
  {
    if ptr.Length < HEADERS {
      return Quit("len");
    }
    if ptr[0] / 16 != 4 {
      return Quit("ip_v");
    }
    var hlen := ptr[0] % 16 * 4;
    if hlen < IPHDR {
      return Quit("ip_hl");
    }
    if ptr.Length < hlen + UDPHDR {
      return Quit("len, hlen");
    }
    ghost var p := ptr[..];
    assert ptr[..hlen] == p[..hlen];
    var sum := InCksum(ptr[..hlen], little);
    Memcpy(ptr, 10, Stored(sum, little));
    if sum != 0 {
      return Quit("ip checksum error");
    }
    assert ptr[9] == p[9];
    if ptr[9] == IPPROTO_UDP {
      return Accepted;
    } else {
      return Quit("not a UDP packet");
    }
  }

  /** The sending kernel's part: the header checksum, taken with its field zero. */
  ghost function WithHeaderSum(p: seq<byte>, little: bool): seq<byte>
    requires |p| >= HEADERS
  {
    p[..10] + Stored(Cksum(p[..10] + [0, 0] + p[12..IPHDR], little), little) + p[12..]
  }

  /** Once the kernel has filled in the header checksum, udp_check accepts what udp_write wrote. */
  lemma WrittenDatagramIsAccepted(local: Endpoint, dest: Endpoint, data: seq<byte>, zerosum: bool,
                                  lenField: seq<byte>, little: bool)
    requires local.Valid() && dest.Valid() && |lenField| == 2
    ensures Acceptable(WithHeaderSum(Datagram(local, dest, data, zerosum, lenField, little), little), little)
  {
    var sum := SumField(local, dest, data, zerosum, little);
    FromProtocolOn(local, dest, data, lenField, sum);
    HeaderSumIsAccepted([0x45, 0] + lenField + [0, 0, 0, 0, TTL_OUT] + Tail(local, dest, data, sum), little);
  }

  lemma HeaderSumIsAccepted(p: seq<byte>, little: bool)
    requires |p| >= HEADERS && p[0] == 0x45 && p[9] == IPPROTO_UDP
    ensures Acceptable(WithHeaderSum(p, little), little)
  {
    hide Cksum, Stored;
    var front, back := p[..10], p[12..IPHDR];
    var c := Cksum(front + [0, 0] + back, little);
    StoredChecksumVerifies(front, back, c, little);
    assert WithHeaderSum(p, little)[..IPHDR] == front + Stored(c, little) + back;
    assert WithHeaderSum(p, little)[0] == 0x45 && WithHeaderSum(p, little)[9] == IPPROTO_UDP;
  }
}
