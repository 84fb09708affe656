/** The Internet checksum: in_cksum of libfree/in_cksum.c. */
module Checksum {
  import opened Base

  /** Two bytes of memory as the host reads a uint16_t. */
  function HostWord(low: byte, high: byte, little: bool): (w: word) {
    if little then Pair(high, low) else Pair(low, high)
  }

  function Pair(high: int, low: int): int {
    high * 256 + low
  }

  /** The 16-bit words of a buffer in host order; an odd last byte is padded with zero. */
  function Words(b: seq<byte>, little: bool): (w: seq<word>)
    ensures |w| == (|b| + 1) / 2
  {
    seq((|b| + 1) / 2, k requires 0 <= k < (|b| + 1) / 2 =>
      HostWord(b[2 * k], if 2 * k + 1 < |b| then b[2 * k + 1] else 0, little))
  }

  function Sum(w: seq<word>): nat {
    if w == [] then 0 else Sum(w[..|w| - 1]) + w[|w| - 1]
  }

  /** One's-complement addition: a carry out of the top comes back in at the bottom. */
  function Add1(a: word, b: word): (c: word) {
    if a + b > 0xffff then a + b - 0xffff else a + b
  }

  /** The one's-complement sum of section 1 of RFC 1071. */
  function Sum1(w: seq<word>): word {
    if w == [] then 0 else Add1(Sum1(w[..|w| - 1]), w[|w| - 1])
  }

  function Complement(a: word): word {
    0xffff - a
  }

  /** What the two folds of a 32-bit accumulator leave of it in 16 bits. */
  function Fold(sum: nat): (f: word)
    requires sum < 0x1_0000_0000
  {
    var once := sum / 0x1_0000 + sum % 0x1_0000;
    (once + once / 0x1_0000) % 0x1_0000
  }

  // ------------------------------------------- one's-complement sums

  /** The one's-complement sum as a residue of the plain sum. */
  function Residue(sum: nat): word {
    if sum == 0 then 0 else (sum - 1) % 0xffff + 1
  }

  lemma {:induction false} Sum1IsResidue(w: seq<word>)
    ensures Sum1(w) == Residue(Sum(w))
  {
    if w != [] {
      Sum1IsResidue(w[..|w| - 1]);
      AddResidue(Sum(w[..|w| - 1]), w[|w| - 1]);
    }
  }

  lemma AddResidue(sum: nat, a: word)
    ensures Residue(sum + a) == Add1(Residue(sum), a)
  {
    if sum > 0 {
      var q, r := (sum - 1) / 0xffff, (sum - 1) % 0xffff;
      assert sum - 1 == q * 0xffff + r;
      if r + a >= 0xffff {
        Quotient(sum - 1 + a, q + 1, r + a - 0xffff);
      } else {
        Quotient(sum - 1 + a, q, r + a);
      }
    } else if a > 0 {
      Quotient(a - 1, 0, a - 1);
    }
  }

  lemma Quotient(x: nat, q: nat, r: nat)
    requires x == q * 0xffff + r && r < 0xffff
    ensures x % 0xffff == r && x / 0xffff == q
  {
  }

  /** Two folds always suffice for a 32-bit accumulator. */
  lemma FoldIsResidue(sum: nat)
    requires sum < 0x1_0000_0000
    ensures Fold(sum) == Residue(sum)
  {
    var high, low := sum / 0x1_0000, sum % 0x1_0000;
    assert sum == high * 0xffff + (high + low);
    var once := high + low;
    if sum > 0 {
      if once > 0xffff {
        assert once < 0x1_ffff;
        Quotient(sum - 1, high + 1, once - 1 - 0xffff);
      } else {
        Quotient(sum - 1, high, once - 1);
      }
    }
  }

  lemma {:induction false} SumBound(w: seq<word>)
    ensures Sum(w) <= 0xffff * |w|
  {
    if w != [] {
      SumBound(w[..|w| - 1]);
    }
  }

  // ------------------------------------------- the function itself

  const WRAP := 0x1_0000_0000

  /** The checksum of a buffer, with the 32-bit accumulator of the code. */
  function Cksum(addr: seq<byte>, little: bool): word {
    Complement(Fold(Wrap(Sum(Words(addr, little)))))
  }

  /** What a uint32_t keeps of a sum. */
  function Wrap(sum: nat): (u: nat)
    ensures u < WRAP && (sum < WRAP ==> u == sum)
  {
    sum % WRAP
  }

  /** in_cksum; its length is an int. */
  method InCksum(addr: seq<byte>, little: bool) returns (answer: word)
    requires |addr| < 0x8000_0000
    ensures answer == Cksum(addr, little)
  {
    hide Wrap, HostWord, Fold;
    ghost var words := Words(addr, little);
    ghost var total: nat := 0;
    var nleft, sum, w := |addr|, 0, 0;
    while nleft > 1
      invariant 0 <= w && nleft == |addr| - 2 * w && nleft >= 0
      invariant total == Sum(words[..w]) && sum == Wrap(total)
    {
      SumStep(words, w);
      Carry(total, words[w]);
      total := total + words[w];
      sum := Wrap(sum + HostWord(addr[2 * w], addr[2 * w + 1], little));
      w := w + 1;
      nleft := nleft - 2;
    }
    if nleft == 1 {
      SumStep(words, w);
      Carry(total, words[w]);
      sum := Wrap(sum + HostWord(addr[2 * w], 0, little));
    }
    assert words[..|words|] == words;
    answer := FoldDown(sum);
  }

  lemma SumStep(words: seq<word>, w: nat)
    requires w < |words|
    ensures Sum(words[..w + 1]) == Sum(words[..w]) + words[w]
  {
    assert words[..w + 1][..w] == words[..w];
  }

  lemma Carry(total: nat, a: word)
    ensures Wrap(Wrap(total) + a) == Wrap(total + a)
  {
  }

  /** The last three statements: two folds and the complement, cut to 16 bits. */
  method FoldDown(accumulator: nat) returns (answer: word)
    requires accumulator < WRAP
    ensures answer == Complement(Fold(accumulator))
  {
    var sum := accumulator / 0x1_0000 + accumulator % 0x1_0000;
    assert sum < 0x2_0000;
    sum := sum + sum / 0x1_0000;
    var inverted := 0xffff_ffff - sum;
    assert inverted == 0xffff * 0x1_0000 + (0xffff - sum % 0x1_0000) || sum >= 0x1_0000;
    answer := inverted % 0x1_0000;
  }

  /** The checksum is the complement of the one's-complement sum exactly when the
      accumulator does not overflow, for every length an int can hold. */
  lemma CksumIsOnesComplement(addr: seq<byte>, little: bool)
    requires |addr| < 0x8000_0000
    ensures Cksum(addr, little) == Complement(Sum1(Words(addr, little)))
            <==> Sum(Words(addr, little)) < WRAP
  {
    hide Words, Sum, Sum1, Fold, Residue;
    var words := Words(addr, little);
    SumBound(words);
    Sum1IsResidue(words);
    var sum := Sum(words);
    if sum < WRAP {
      FoldIsResidue(sum);
    } else {
      OverflowShows(sum);
    }
  }

  /** Each carry the accumulator loses would have come back in as a one. */
  lemma OverflowShows(sum: nat)
    requires WRAP <= sum < 0x1_0000 * 0x4000_0000
    ensures Fold(Wrap(sum)) != Residue(sum)
  {
    var q, r := sum / WRAP, sum % WRAP;
    FoldIsResidue(r);
    assert sum == q * WRAP + r && 1 <= q < 0x4000;
    if r > 0 {
      var m := (r - 1) % 0xffff;
      var n := (r - 1) / 0xffff;
      assert r - 1 == n * 0xffff + m;
      assert WRAP == 0xffff * 65537 + 1;
      assert sum - 1 == (q * 65537 + n) * 0xffff + (m + q);
      if m + q < 0xffff {
        Quotient(sum - 1, q * 65537 + n, m + q);
      } else {
        Quotient(sum - 1, q * 65537 + n + 1, m + q - 0xffff);
      }
    }
  }

  /** No overflow for up to 65537 words, whatever they hold; 65538 words can overflow. */
  lemma NoOverflow(addr: seq<byte>, little: bool)
    ensures |addr| <= 2 * 65537 ==> Sum(Words(addr, little)) < WRAP
    ensures |addr| == 2 * 65538 && (forall k | 0 <= k < |addr| :: addr[k] == 0xff)
            ==> Sum(Words(addr, little)) >= WRAP
  {
    var w := Words(addr, little);
    SumBound(w);
    if |addr| == 2 * 65538 && forall k | 0 <= k < |addr| :: addr[k] == 0xff {
      SumOfOnes(w);
    }
  }

  lemma {:induction false} SumOfOnes(w: seq<word>)
    requires forall k | 0 <= k < |w| :: w[k] == 0xffff
    ensures Sum(w) == 0xffff * |w|
  {
    if w != [] {
      SumOfOnes(w[..|w| - 1]);
    }
  }

  // ------------------------------------------- byte order

  function Swap(a: word): word {
    Pair(a % 0x100, a / 0x100)
  }

  /** A word in memory, as a host of the given byte order stores it. */
  function Stored(a: word, little: bool): (b: seq<byte>)
    ensures |b| == 2
  {
    if little then [a % 0x100, a / 0x100] else [a / 0x100, a % 0x100]
  }

  /** Swapping the bytes of both operands swaps the bytes of their one's-complement sum:
      the carry that leaves one byte always enters the other. */
  lemma SwapAdds(a: word, b: word)
    ensures Swap(Add1(a, b)) == Add1(Swap(a), Swap(b))
  {
    var ah: nat, al: nat, bh: nat, bl: nat := a / 0x100, a % 0x100, b / 0x100, b % 0x100;
    var cl := if al + bl > 0xff then 1 else 0;
    var ch := if ah + bh + cl > 0xff then 1 else 0;
    var k := if al + bl - 0x100 * cl + ch > 0xff then 1 else 0;
    var low := al + bl - 0x100 * cl + ch - 0x100 * k;
    var high := ah + bh + cl - 0x100 * ch + k;
    assert 0 <= low <= 0xff && 0 <= high <= 0xff;
    assert Add1(a, b) == Pair(high, low);
    PairSwap(high, low);
    PairSwap(ah, al);
    PairSwap(bh, bl);
    assert Add1(Swap(a), Swap(b)) == Pair(low, high);
  }

  lemma PairSwap(h: nat, l: nat)
    requires h <= 0xff && l <= 0xff
    ensures Swap(Pair(h, l)) == Pair(l, h)
  {
    var x := h * 0x100 + l;
    assert x / 0x100 == h;
    assert x % 0x100 == x - 0x100 * (x / 0x100) == l;
  }

  lemma {:induction false} SwapSums(v: seq<word>, w: seq<word>)
    requires |v| == |w| && forall k | 0 <= k < |w| :: v[k] == Swap(w[k])
    ensures Sum1(v) == Swap(Sum1(w))
  {
    if w != [] {
      SwapSums(v[..|w| - 1], w[..|w| - 1]);
      SwapAdds(Sum1(w[..|w| - 1]), w[|w| - 1]);
    }
  }

  /** Item (B) of section 2 of RFC 1071: for every buffer, odd lengths included, the two
      byte orders give checksums that are byte swaps of each other ... */
  lemma ByteOrderIndependent(addr: seq<byte>)
    ensures Complement(Sum1(Words(addr, true))) == Swap(Complement(Sum1(Words(addr, false))))
  {
    forall k | 0 <= k < (|addr| + 1) / 2
      ensures Words(addr, true)[k] == Swap(Words(addr, false)[k])
    {
      PairSwap(addr[2 * k], if 2 * k + 1 < |addr| then addr[2 * k + 1] else 0);
    }
    SwapSums(Words(addr, true), Words(addr, false));
    SwapComplement(Sum1(Words(addr, false)));
  }

  lemma SwapComplement(a: word)
    ensures Complement(Swap(a)) == Swap(Complement(a))
    ensures Stored(Swap(a), true) == Stored(a, false)
    ensures Swap(Swap(a)) == a
  {
    var h, l := a / 0x100, a % 0x100;
    assert Complement(a) == Pair(0xff - h, 0xff - l);
    PairSwap(0xff - h, 0xff - l);
    PairSwap(h, l);
    PairSwap(l, h);
  }

  /** ... so that storing the result without htons() puts the same bytes on the wire. */
  lemma StoredBytesAgree(addr: seq<byte>)
    requires |addr| < 0x8000_0000 && Sum(Words(addr, true)) < WRAP && Sum(Words(addr, false)) < WRAP
    ensures Stored(Cksum(addr, true), true) == Stored(Cksum(addr, false), false)
  {
    hide Words, Sum, Sum1, Cksum, Complement, Stored, Swap;
    CksumIsOnesComplement(addr, true);
    CksumIsOnesComplement(addr, false);
    ByteOrderIndependent(addr);
    SwapComplement(Cksum(addr, false));
  }

  lemma CksumIs(addr: seq<byte>, little: bool)
    requires |addr| <= 2 * 65537
    ensures Cksum(addr, little) == Complement(Sum1(Words(addr, little)))
  {
    NoOverflow(addr, little);
    CksumIsOnesComplement(addr, little);
  }

  // ------------------------------------------- a stored checksum checks

  lemma Sum1Split(v: seq<word>, a: word, w: seq<word>)
    ensures Sum1(v + [a] + w) == Residue(Sum(v) + a + Sum(w))
  {
    SumSplit(v, a, w);
    Sum1IsResidue(v + [a] + w);
  }

  lemma {:induction false} SumSplit(v: seq<word>, a: word, w: seq<word>)
    ensures Sum(v + [a] + w) == Sum(v) + a + Sum(w)
    decreases |w|
  {
    var u := v + [a] + w;
    if w == [] {
      assert u[..|u| - 1] == v;
    } else {
      assert u[..|u| - 1] == v + [a] + w[..|w| - 1];
      SumSplit(v, a, w[..|w| - 1]);
    }
  }

  lemma Cancels(rest: nat, c: word, zero: word, full: word)
    requires zero == Residue(rest + 0) && full == Residue(rest + c)
    requires c == Complement(zero) || (zero == 0xffff && c == 0xffff)
    ensures full == 0xffff
  {
    AddResidue(rest, c);
  }

  lemma WordsConcat(front: seq<byte>, back: seq<byte>, little: bool)
    requires |front| % 2 == 0
    ensures Words(front + back, little) == Words(front, little) + Words(back, little)
  {
    var b, n := front + back, |front| / 2;
    forall k | 0 <= k < (|b| + 1) / 2
      ensures Words(b, little)[k] == (Words(front, little) + Words(back, little))[k]
    {
      if k >= n {
        assert |front| == 2 * n && 2 * k - 2 * n == 2 * (k - n);
        assert b[2 * k] == back[2 * (k - n)];
        assert 2 * k + 1 < |b| ==> b[2 * k + 1] == back[2 * (k - n) + 1];
      }
    }
  }

  lemma WordsAround(front: seq<byte>, field: seq<byte>, back: seq<byte>, little: bool)
    requires |front| % 2 == 0 && |field| == 2
    ensures Words(front + field + back, little)
            == Words(front, little) + [HostWord(field[0], field[1], little)] + Words(back, little)
  {
    WordsConcat(front + field, back, little);
    WordsConcat(front, field, little);
    assert Words(field, little) == [HostWord(field[0], field[1], little)];
  }

  lemma SumAround(front: seq<byte>, field: seq<byte>, back: seq<byte>, a: word, little: bool)
    requires |front| % 2 == 0 && |field| == 2 && a == HostWord(field[0], field[1], little)
    ensures Sum1(Words(front + field + back, little)) == Residue(Rest(front, back, little) + a)
  {
    WordsAround(front, field, back, little);
    Sum1Split(Words(front, little), a, Words(back, little));
  }

  /** The plain sum of everything but one word. */
  function Rest(front: seq<byte>, back: seq<byte>, little: bool): nat {
    Sum(Words(front, little)) + Sum(Words(back, little))
  }

  lemma HostStored(c: word, little: bool)
    ensures HostWord(Stored(c, little)[0], Stored(c, little)[1], little) == c
  {
  }

  lemma WithField(front: seq<byte>, field: seq<byte>, back: seq<byte>, c: word, little: bool)
    requires |front| % 2 == 0 && (field == Stored(c, little) || (c == 0 && field == [0, 0]))
    ensures Sum1(Words(front + field + back, little)) == Residue(Rest(front, back, little) + c)
  {
    HostStored(c, little);
    SumAround(front, field, back, c, little);
  }

  /** A buffer whose checksum field holds the checksum taken with that field zero sums to
      all ones. The same with 0xffff in place of 0. */
  lemma StoredSumIsOnes(front: seq<byte>, back: seq<byte>, c: word, little: bool)
    requires |front| % 2 == 0
    requires var taken := Complement(Sum1(Words(front + [0, 0] + back, little)));
             c == taken || (taken == 0 && c == 0xffff)
    ensures Sum1(Words(front + Stored(c, little) + back, little)) == 0xffff
  {
    hide Words, Sum, Sum1, Residue, Rest, Stored;
    WithField(front, [0, 0], back, 0, little);
    WithField(front, Stored(c, little), back, c, little);
    Cancels(Rest(front, back, little), c, Sum1(Words(front + [0, 0] + back, little)),
            Sum1(Words(front + Stored(c, little) + back, little)));
  }

  /** So in_cksum over a buffer that holds its own checksum gives 0. */
  lemma StoredChecksumVerifies(front: seq<byte>, back: seq<byte>, c: word, little: bool)
    requires |front| % 2 == 0 && |front| + 2 + |back| <= 2 * 65537
    requires var taken := Cksum(front + [0, 0] + back, little);
             c == taken || (taken == 0 && c == 0xffff)
    ensures Cksum(front + Stored(c, little) + back, little) == 0
  {
    CksumIs(front + [0, 0] + back, little);
    CksumIs(front + Stored(c, little) + back, little);
    StoredSumIsOnes(front, back, c, little);
  }

  // ------------------------------------------- sums of parts

  lemma {:induction false} SumConcat(v: seq<word>, w: seq<word>)
    ensures Sum(v + w) == Sum(v) + Sum(w)
    decreases |w|
  {
    if w == [] {
      assert v + w == v;
    } else {
      SumConcat(v, w[..|w| - 1]);
      assert (v + w)[..|v + w| - 1] == v + w[..|w| - 1];
    }
  }

  /** A buffer of whole words and whatever follows it. */
  lemma SumOfParts(a: seq<byte>, b: seq<byte>, little: bool)
    requires |a| % 2 == 0
    ensures Sum(Words(a + b, little)) == Sum(Words(a, little)) + Sum(Words(b, little))
  {
    WordsConcat(a, b, little);
    SumConcat(Words(a, little), Words(b, little));
  }

  // ------------------------------------------- the checksum from the bytes alone

  /** The sum of the bytes at even or at odd places. */
  function ByteSum(b: seq<byte>, odd: bool): nat {
    if b == [] then 0
    else ByteSum(b[..|b| - 1], odd) + if (|b| % 2 == 0) == odd then b[|b| - 1] else 0
  }

  lemma {:induction false} SumOfBytes(b: seq<byte>)
    ensures Sum(Words(b, false)) == 256 * ByteSum(b, false) + ByteSum(b, true)
    ensures Sum(Words(b, true)) == ByteSum(b, false) + 256 * ByteSum(b, true)
    decreases |b|
  {
    hide Words, Sum;
    var n := |b|;
    if n == 0 {
      SumOfNone();
    } else if n % 2 == 1 {
      var front, x := b[..n - 1], b[n - 1];
      SumOfBytes(front);
      assert b == front + [x];
      SumOfParts(front, [x], false);
      SumOfParts(front, [x], true);
      SumOfOne(x);
    } else {
      var front, x, y := b[..n - 2], b[n - 2], b[n - 1];
      SumOfBytes(front);
      assert b == front + [x, y] && b[..n - 1][..n - 2] == front;
      SumOfParts(front, [x, y], false);
      SumOfParts(front, [x, y], true);
      SumOfTwo(x, y);
    }
  }

  lemma SumOfNone()
    ensures Sum(Words([], false)) == Sum(Words([], true)) == 0
  {
  }

  lemma SumOfOne(x: byte)
    ensures Sum(Words([x], false)) == Pair(x, 0) && Sum(Words([x], true)) == x
  {
    assert Words([x], false) == [Pair(x, 0)] && Words([x], true) == [x];
    assert Sum([Pair(x, 0)][..0]) == 0 && Sum([x][..0]) == 0;
  }

  lemma SumOfTwo(x: byte, y: byte)
    ensures Sum(Words([x, y], false)) == Pair(x, y) && Sum(Words([x, y], true)) == Pair(y, x)
  {
    assert Words([x, y], false) == [Pair(x, y)] && Words([x, y], true) == [Pair(y, x)];
    assert Sum([Pair(x, y)][..0]) == 0 && Sum([Pair(y, x)][..0]) == 0;
  }

  /** For every buffer there is one 16-bit number that makes the sum of its bytes, those at even
      places counted 256 times on a big-endian host and those at odd places on a little-endian
      one, a multiple of 0xffff, unless the sum is one already; then 0 is taken, and 0xffff only
      for the sum zero. That is the checksum, up to what the accumulator loses. */
  lemma CksumFromBytes(addr: seq<byte>)
    ensures var sum := (256 * ByteSum(addr, false) + ByteSum(addr, true)) % 0x1_0000_0000;
            (sum + Cksum(addr, false)) % 0xffff == 0 && (Cksum(addr, false) == 0xffff <==> sum == 0)
    ensures var sum := (ByteSum(addr, false) + 256 * ByteSum(addr, true)) % 0x1_0000_0000;
            (sum + Cksum(addr, true)) % 0xffff == 0 && (Cksum(addr, true) == 0xffff <==> sum == 0)
  {
    hide Words, Sum, ByteSum, Complement, Fold;
    SumOfBytes(addr);
    Completes(Wrap(Sum(Words(addr, false))));
    Completes(Wrap(Sum(Words(addr, true))));
  }

  lemma Completes(u: nat)
    requires u < WRAP
    ensures (u + Complement(Fold(u))) % 0xffff == 0 && (Complement(Fold(u)) == 0xffff <==> u == 0)
  {
    FoldIsResidue(u);
    if u > 0 {
      var q, r := (u - 1) / 0xffff, (u - 1) % 0xffff;
      Quotient(u + Complement(Fold(u)), q + 1, 0);
    }
  }
}
