/** IPv6 binary to text: inet_ntop6 of libfree/inet_ntop.c. */
module Inet6Print {
  import opened Base
  import opened Text
  import opened Numerals
  import Inet4
  import opened Inet6Parse
  import opened Inet6Grammar

  const WORDS := 8
  /** sizeof "ffff:ffff:ffff:ffff:ffff:ffff:255.255.255.255" */
  const TMPSIZE := 46

  function Pack(a: seq<byte>): (w: seq<word>)
    requires |a| == IN6ADDRSZ
    ensures |w| == WORDS
  {
    seq(WORDS, k requires 0 <= k < WORDS => Word(a[2 * k], a[2 * k + 1]))
  }

  function Word(high: int, low: int): int {
    high * 256 + low
  }

  function Unpack(w: seq<word>): (a: seq<byte>)
    ensures |a| == 2 * |w|
  {
    seq(2 * |w|, k requires 0 <= k < 2 * |w| => if k % 2 == 0 then w[k / 2] / 256 else w[k / 2] % 256)
  }

  lemma UnpackPack(a: seq<byte>)
    requires |a| == IN6ADDRSZ
    ensures Unpack(Pack(a)) == a
  {
    hide Word;
    forall k | 0 <= k < IN6ADDRSZ
      ensures Unpack(Pack(a))[k] == a[k]
    {
      var j := k / 2;
      assert k == 2 * j + k % 2;
      BytesOfWord(a[2 * j], a[2 * j + 1]);
    }
  }

  lemma BytesOfWord(high: byte, low: byte)
    ensures Word(high, low) / 256 == high && Word(high, low) % 256 == low
  {
  }

  // ------------------------------------------- which zeros "::" stands for

  datatype Run = Run(base: nat, len: nat)

  ghost predicate ZeroRun(w: seq<word>, r: Run) {
    r.base + r.len <= |w| && forall k | r.base <= k < r.base + r.len :: w[k] == 0
  }

  /** The leftmost of the longest runs of zero words, if that has at least two words
      (section 4.2 of RFC 5952). */
  ghost predicate Best(w: seq<word>, best: Option<Run>) {
    match best
    case None => forall r | ZeroRun(w, r) :: r.len < 2
    case Some(b) =>
      && ZeroRun(w, b) && b.len >= 2
      && forall r | ZeroRun(w, r) :: r.len < b.len || (r.len == b.len && b.base <= r.base)
  }

  lemma BestIsUnique(w: seq<word>, b: Option<Run>, c: Option<Run>)
    requires Best(w, b) && Best(w, c)
    ensures b == c
  {
  }

  // ------------------------------------------- the text as a form

  function HexWords(w: seq<word>): (toks: seq<string>)
    ensures |toks| == |w|
  {
    seq(|w|, k requires 0 <= k < |w| => Hex(w[k]))
  }

  /** An IPv4 address inside: ::a.b.c.d or ::ffff:a.b.c.d. */
  predicate Embedded(w: seq<word>, best: Option<Run>)
    requires |w| == WORDS
  {
    && best.Some? && best.value.base == 0
    && (best.value.len == 6 || (best.value.len == 5 && w[5] == 0xffff))
  }

  function EmbeddedQuad(w: seq<word>, best: Option<Run>): Option<string>
    requires |w| == WORDS
  {
    if Embedded(w, best) then Some(Inet4.QuadText(Unpack(w[6..]))) else None
  }

  /** The pieces of the text from word i on: groups, or groups and a dotted quad. */
  function Tail(groups: seq<string>, quad: Option<string>, i: nat): seq<string>
    requires |groups| == WORDS && i <= WORDS
  {
    if quad.Some? && i <= 6 then groups[i..6] + [quad.value] else groups[i..]
  }

  predicate InBounds(best: Option<Run>) {
    best.Some? ==> best.value.base + best.value.len <= WORDS
  }

  function FormOf(groups: seq<string>, best: Option<Run>, quad: Option<string>): Form
    requires |groups| == WORDS && InBounds(best)
  {
    match best
    case None => Full(groups)
    case Some(b) => Gapped(groups[..b.base], Tail(groups, quad, b.base + b.len))
  }

  function PrintForm(w: seq<word>, best: Option<Run>): Form
    requires |w| == WORDS && InBounds(best)
  {
    FormOf(HexWords(w), best, EmbeddedQuad(w, best))
  }

  /** The text of an address: its form with the best run of zeros left out. */
  ghost predicate Prints(a: seq<byte>, text: string)
    requires |a| == IN6ADDRSZ
  {
    exists best :: Best(Pack(a), best) && text == Render(PrintForm(Pack(a), best))
  }

  // ------------------------------------------- round trip

  lemma HexIsGroup(x: word)
    ensures IsGroup(Hex(x)) && PieceBytes(Hex(x)) == [x / 256, x % 256] && 1 <= |Hex(x)| <= 4
  {
    HexRoundTrip(x);
    assert Pow16(1) == 16 && Pow16(2) == 0x100 && Pow16(3) == 0x1000 && Pow16(4) == 0x1_0000;
    HexLength(x, 4, 0x1_0000);
  }

  lemma {:induction false} HexWordsAreGroups(w: seq<word>)
    ensures IsSide(HexWords(w), false) && SideBytes(HexWords(w)) == Unpack(w)
  {
    hide Hex, IsGroup, PieceBytes;
    forall k | 0 <= k < |w|
      ensures IsGroup(HexWords(w)[k])
    {
      HexIsGroup(w[k]);
    }
    if w != [] {
      var v, x := w[..|w| - 1], w[|w| - 1];
      HexWordsAreGroups(v);
      HexIsGroup(x);
      assert HexWords(w)[..|w| - 1] == HexWords(v);
      assert Unpack(w) == Unpack(v) + [x / 256, x % 256];
    }
  }

  lemma UnpackConcat(u: seq<word>, v: seq<word>)
    ensures Unpack(u + v) == Unpack(u) + Unpack(v)
  {
    var n := |u|;
    forall k | 0 <= k < 2 * |u + v|
      ensures Unpack(u + v)[k] == (Unpack(u) + Unpack(v))[k]
    {
      if k >= 2 * n {
        assert (u + v)[k / 2] == v[(k - 2 * n) / 2];
      }
    }
  }

  lemma UnpackZeros(w: seq<word>)
    requires forall k | 0 <= k < |w| :: w[k] == 0
    ensures Unpack(w) == Zeros(2 * |w|)
  {
  }

  lemma SideSnoc(side: seq<string>, tok: string)
    requires IsSide(side, false) && IsPiece(tok, true)
    ensures IsSide(side + [tok], true) && SideBytes(side + [tok]) == SideBytes(side) + PieceBytes(tok)
  {
    assert (side + [tok])[..|side|] == side;
  }

  lemma TailIsSide(w: seq<word>, best: Option<Run>, i: nat)
    requires |w| == WORDS && i <= 8 && (Embedded(w, best) ==> i <= 6)
    ensures var tail := Tail(HexWords(w), EmbeddedQuad(w, best), i);
            IsSide(tail, true) && SideBytes(tail) == Unpack(w[i..])
  {
    hide Hex, SideBytes, Inet4.QuadText;
    if Embedded(w, best) {
      EmbeddedTailIsSide(w[i..6], w[6..]);
      assert w[i..] == w[i..6] + w[6..];
      assert HexWords(w)[i..6] == HexWords(w[i..6]);
    } else {
      HexWordsAreGroups(w[i..]);
      assert HexWords(w)[i..] == HexWords(w[i..]);
    }
  }

  lemma EmbeddedTailIsSide(u: seq<word>, v: seq<word>)
    requires |v| == 2
    ensures var side := HexWords(u) + [Inet4.QuadText(Unpack(v))];
            IsSide(side, true) && SideBytes(side) == Unpack(u + v)
  {
    HexWordsAreGroups(u);
    QuadIsPiece(Unpack(v));
    SideSnoc(HexWords(u), Inet4.QuadText(Unpack(v)));
    UnpackConcat(u, v);
  }

  lemma QuadIsPiece(a: seq<byte>)
    requires |a| == Inet4.INADDRSZ
    ensures !IsGroup(Inet4.QuadText(a)) && Inet4.Quad(Inet4.QuadText(a)) == Some(a)
  {
    Inet4.QuadRoundTrip(a);
    QuadHasDot(a);
  }

  lemma QuadHasDot(a: seq<byte>)
    requires |a| == Inet4.INADDRSZ
    ensures !IsHexDigits(Inet4.QuadText(a))
  {
    assert Inet4.QuadText(a)[|Dec(a[0])|] == '.';
    assert '.' in Inet4.QuadText(a);
  }

  /** What inet_ntop6 prints is a valid form of the RFC whose value is the address. */
  lemma PrintFormIsValid(w: seq<word>, best: Option<Run>)
    requires |w| == WORDS && Best(w, best)
    ensures Valid(PrintForm(w, best)) && Value(PrintForm(w, best)) == Unpack(w)
  {
    match best
    case None =>
      HexWordsAreGroups(w);
    case Some(b) =>
      PrintGapIsValid(w, b);
  }

  lemma PrintGapIsValid(w: seq<word>, b: Run)
    requires |w| == WORDS && ZeroRun(w, b) && b.len >= 2
    ensures Valid(PrintForm(w, Some(b))) && Value(PrintForm(w, Some(b))) == Unpack(w)
  {
    hide Hex, Inet4.QuadText, IsSide, SideBytes, Tail, Unpack;
    var i := b.base + b.len;
    HexWordsAreGroups(w[..b.base]);
    assert HexWords(w)[..b.base] == HexWords(w[..b.base]);
    TailIsSide(w, Some(b), i);
    UnpackAround(w, b);
    GapValue(HexWords(w[..b.base]), Tail(HexWords(w), EmbeddedQuad(w, Some(b)), i), 2 * b.len);
  }

  lemma GapValue(left: seq<string>, right: seq<string>, gap: nat)
    requires IsSide(left, false) && IsSide(right, true) && gap >= INT16SZ
    requires |SideBytes(left)| + gap + |SideBytes(right)| == IN6ADDRSZ
    ensures var f := Gapped(left, right);
            Valid(f) && Value(f) == SideBytes(left) + Zeros(gap) + SideBytes(right)
  {
  }

  lemma UnpackAround(w: seq<word>, b: Run)
    requires ZeroRun(w, b)
    ensures Unpack(w) == Unpack(w[..b.base]) + Zeros(2 * b.len) + Unpack(w[b.base + b.len..])
  {
    var u, z, v := w[..b.base], w[b.base..b.base + b.len], w[b.base + b.len..];
    UnpackZeros(z);
    UnpackConcat(u, z);
    UnpackConcat(u + z, v);
    assert w == u + z + v;
  }

  lemma HexWordsAreShort(w: seq<word>)
    ensures forall k | 0 <= k < |w| :: |HexWords(w)[k]| <= 4 && ShortPiece(HexWords(w)[k])
  {
    forall k | 0 <= k < |w|
      ensures |HexWords(w)[k]| <= 4 && ShortPiece(HexWords(w)[k])
    {
      HexIsGroup(w[k]);
    }
  }

  lemma PrintFormIsShort(w: seq<word>, best: Option<Run>)
    requires |w| == WORDS && InBounds(best)
    ensures ShortGroups(FormTokens(PrintForm(w, best), false))
  {
    HexWordsAreShort(w);
    QuadIsShort(Unpack(w[6..]));
    FormIsShort(HexWords(w), best, EmbeddedQuad(w, best));
  }

  lemma FormIsShort(groups: seq<string>, best: Option<Run>, quad: Option<string>)
    requires |groups| == WORDS && InBounds(best)
    requires forall k | 0 <= k < WORDS :: ShortPiece(groups[k])
    requires quad.Some? ==> ShortPiece(quad.value)
    ensures ShortGroups(FormTokens(FormOf(groups, best, quad), false))
  {
    hide ShortPiece;
    EmptyIsShort();
  }

  lemma EmptyIsShort()
    ensures ShortPiece("")
  {
  }

  lemma QuadIsShort(a: seq<byte>)
    requires |a| == Inet4.INADDRSZ
    ensures ShortPiece(Inet4.QuadText(a))
  {
    QuadHasDot(a);
    Inet4.QuadPartsAreOctets(a);
    SplitJoin(Inet4.QuadParts(a), '.');
    forall k | 0 <= k < 4
      ensures |Inet4.QuadParts(a)[k]| <= 3
    {
      DecLength(a[k]);
    }
  }

  /** Parsing what inet_ntop6 prints gives back exactly the address. */
  lemma RoundTrip(a: seq<byte>, text: string)
    requires |a| == IN6ADDRSZ
    ensures Prints(a, text) ==> Address(text) == Some(a)
  {
    hide Address, Valid, Value, Render, PrintForm, Pack, Unpack;
    if best :| Best(Pack(a), best) && text == Render(PrintForm(Pack(a), best)) {
      PrintFormIsValid(Pack(a), best);
      ValidFormsAreAccepted(PrintForm(Pack(a), best));
      UnpackPack(a);
    }
  }

  /** An address has one printed text, and no other address has the same. */
  lemma PrintedTextIsCanonical(a: seq<byte>, b: seq<byte>, s: string, t: string)
    requires |a| == IN6ADDRSZ && |b| == IN6ADDRSZ
    ensures Prints(a, s) && Prints(b, t) ==> (a == b <==> s == t)
  {
    hide Address, Render, PrintForm, Pack;
    RoundTrip(a, s);
    RoundTrip(b, t);
    if a == b && Prints(a, s) && Prints(b, t) {
      var p :| Best(Pack(a), p) && s == Render(PrintForm(Pack(a), p));
      var q :| Best(Pack(a), q) && t == Render(PrintForm(Pack(a), q));
      BestIsUnique(Pack(a), p, q);
    }
  }

  // ------------------------------------------- the text as the loop writes it

  predicate InRun(best: Option<Run>, i: nat) {
    best.Some? && best.value.base <= i < best.value.base + best.value.len
  }

  /** What one turn of the formatting loop writes. */
  function Turn(groups: seq<string>, best: Option<Run>, quad: Option<string>, i: nat): string
    requires |groups| == WORDS && i < WORDS
  {
    if InRun(best, i) then (if i == best.value.base then ":" else "")
    else (if i != 0 then ":" else "") + (if i == 6 && quad.Some? then quad.value else groups[i])
  }

  /** What the loop and the check after it write from word i on. */
  function FormatFrom(groups: seq<string>, best: Option<Run>, quad: Option<string>, i: nat): string
    requires |groups| == WORDS && i <= WORDS
    decreases WORDS - i
  {
    if i == WORDS then
      if best.Some? && best.value.base + best.value.len == WORDS then ":" else ""
    else if i == 6 && quad.Some? then Turn(groups, best, quad, i)
    else Turn(groups, best, quad, i) + FormatFrom(groups, best, quad, i + 1)
  }

  /** What the check for a trailing run adds. */
  ghost function Closing(best: Option<Run>): string {
    if best.Some? && best.value.base + best.value.len == WORDS then ":" else ""
  }

  lemma FormatTurn(groups: seq<string>, best: Option<Run>, quad: Option<string>, i: nat)
    requires |groups| == WORDS && i < WORDS
    ensures FormatFrom(groups, best, quad, i) ==
            Turn(groups, best, quad, i) + (if i == 6 && quad.Some? then "" else FormatFrom(groups, best, quad, i + 1))
  {
  }

  lemma FormatEnd(groups: seq<string>, best: Option<Run>, quad: Option<string>)
    requires |groups| == WORDS
    ensures FormatFrom(groups, best, quad, WORDS) == Closing(best)
  {
  }

  /** A colon before each piece. */
  function Colons(toks: seq<string>): string {
    if toks == [] then "" else ":" + toks[0] + Colons(toks[1..])
  }

  lemma {:induction false} ColonsSnoc(toks: seq<string>, tok: string)
    ensures Colons(toks + [tok]) == Colons(toks) + ":" + tok
  {
    if toks == [] {
      assert toks + [tok] == [tok];
      assert Colons([tok][1..]) == "";
    } else {
      ColonsSnoc(toks[1..], tok);
      assert (toks + [tok])[1..] == toks[1..] + [tok];
      Associate(":" + toks[0], Colons(toks[1..]), ":" + tok);
    }
  }

  lemma {:induction false} JoinColons(toks: seq<string>)
    requires toks != []
    ensures Join(toks, ':') == toks[0] + Colons(toks[1..])
  {
    var n := |toks| - 1;
    if n > 0 {
      JoinColons(toks[..n]);
      ColonsSnoc(toks[..n][1..], toks[n]);
      assert toks[1..] == toks[..n][1..] + [toks[n]];
    }
  }

  /** After the run, or without one: a colon before each piece that is left. */
  lemma {:induction false} FormatTail(groups: seq<string>, best: Option<Run>, quad: Option<string>, i: nat)
    requires |groups| == WORDS && 1 <= i <= WORDS && (quad.Some? ==> i <= 6)
    requires best.Some? ==> best.value.base + best.value.len <= i
    ensures FormatFrom(groups, best, quad, i) ==
            if i == WORDS && best.Some? && best.value.base + best.value.len == WORDS then ":"
            else Colons(Tail(groups, quad, i))
            // "::" at the very end
    ensures i < WORDS ==> Tail(groups, quad, i) != []
    decreases WORDS - i
  {
    hide FormatFrom, Colons;
    if i < WORDS {
      FormatTurn(groups, best, quad, i);
      if quad.Some? && i == 6 {
        assert Tail(groups, quad, i) == [quad.value] + [];
        ColonsHead(quad.value, []);
      } else {
        FormatTail(groups, best, quad, i + 1);
        assert Tail(groups, quad, i) == [groups[i]] + Tail(groups, quad, i + 1);
        ColonsHead(groups[i], Tail(groups, quad, i + 1));
        NoneLeft(Tail(groups, quad, i + 1));
      }
    } else {
      FormatEnd(groups, best, quad);
      NoneLeft(Tail(groups, quad, i));
    }
  }

  lemma ColonsHead(tok: string, toks: seq<string>)
    ensures Colons([tok] + toks) == ":" + tok + Colons(toks)
    ensures Colons([]) == "" && ":" + tok + "" == ":" + tok
  {
    assert ([tok] + toks)[1..] == toks;
  }

  lemma NoneLeft(toks: seq<string>)
    ensures toks == [] ==> Colons(toks) == ""
  {
  }

  /** Before the run: the groups, with a colon before each but the first. */
  lemma {:induction false} FormatHead(groups: seq<string>, b: Run, quad: Option<string>, i: nat)
    requires |groups| == WORDS && 1 <= i <= b.base && b.base + b.len <= WORDS && (quad.Some? ==> b.base <= 6)
    ensures FormatFrom(groups, Some(b), quad, i) ==
            Colons(groups[i..b.base]) + FormatFrom(groups, Some(b), quad, b.base)
    decreases b.base - i
  {
    hide FormatFrom, Colons;
    if i < b.base {
      FormatHead(groups, b, quad, i + 1);
      FormatTurn(groups, Some(b), quad, i);
      assert groups[i..b.base] == [groups[i]] + groups[i + 1..b.base];
      ColonsHead(groups[i], groups[i + 1..b.base]);
      Associate(":" + groups[i], Colons(groups[i + 1..b.base]), FormatFrom(groups, Some(b), quad, b.base));
    } else {
      NoneLeft(groups[i..b.base]);
    }
  }

  lemma {:induction false} FormatRun(groups: seq<string>, b: Run, quad: Option<string>, i: nat)
    requires |groups| == WORDS && b.base <= i < b.base + b.len <= WORDS
    requires quad.Some? ==> b.base + b.len <= 6
    ensures FormatFrom(groups, Some(b), quad, i) ==
            (if i == b.base then ":" else "") + FormatFrom(groups, Some(b), quad, b.base + b.len)
    decreases b.base + b.len - i
  {
    hide FormatFrom;
    FormatTurn(groups, Some(b), quad, i);
    if i + 1 < b.base + b.len {
      FormatRun(groups, b, quad, i + 1);
    }
  }

  /** The loop writes the text of the form. */
  lemma FormatIsRender(groups: seq<string>, best: Option<Run>, quad: Option<string>)
    requires |groups| == WORDS && InBounds(best)
    requires quad.Some? ==> best.Some? && best.value.base + best.value.len <= 6
    requires best.Some? ==> best.value.len >= 2
    ensures FormatFrom(groups, best, quad, 0) == Render(FormOf(groups, best, quad))
  {
    match best
    case None =>
      FormatFullIsRender(groups);
    case Some(b) =>
      FormatGapIsRender(groups, b, quad);
  }

  lemma FormatFullIsRender(groups: seq<string>)
    requires |groups| == WORDS
    ensures FormatFrom(groups, None, None, 0) == Join(groups, ':')
  {
    hide FormatFrom, Join, Colons;
    FormatTurn(groups, None, None, 0);
    FormatTail(groups, None, None, 1);
    JoinColons(groups);
  }

  lemma FormatGapIsRender(groups: seq<string>, b: Run, quad: Option<string>)
    requires |groups| == WORDS && b.len >= 2 && b.base + b.len <= (if quad.Some? then 6 else WORDS)
    ensures FormatFrom(groups, Some(b), quad, 0) == Render(FormOf(groups, Some(b), quad))
  {
    hide Tail, Colons, FormatFrom, Join;
    var left, right := groups[..b.base], Tail(groups, quad, b.base + b.len);
    FormatRunAndTail(groups, b, quad);
    if b.base > 0 {
      FormatTurn(groups, Some(b), quad, 0);
      FormatHead(groups, b, quad, 1);
      JoinColons(left);
      assert left[1..] == groups[1..b.base];
      AroundGap(groups[0], Colons(left[1..]), Join(right, ':'));
    } else {
      JoinNothing(left);
      AroundGap("", "", Join(right, ':'));
    }
  }

  lemma JoinNothing(toks: seq<string>)
    ensures toks == [] ==> Join(toks, ':') == ""
  {
  }

  lemma AroundGap(a: string, b: string, c: string)
    ensures a + (b + ("::" + c)) == (a + b) + "::" + c
    ensures "" + a == a && "" + "::" + c == "::" + c
  {
  }

  lemma FormatRunAndTail(groups: seq<string>, b: Run, quad: Option<string>)
    requires |groups| == WORDS && b.base + b.len <= WORDS && b.len >= 2
    requires quad.Some? ==> b.base + b.len <= 6
    ensures FormatFrom(groups, Some(b), quad, b.base) == "::" + Join(Tail(groups, quad, b.base + b.len), ':')
  {
    hide FormatFrom;
    var end := b.base + b.len;
    var tail := Tail(groups, quad, end);
    FormatTail(groups, Some(b), quad, end);
    FormatRun(groups, b, quad, b.base);
    if end < WORDS {
      JoinColons(tail);
      TwoColons(tail[0], Colons(tail[1..]));
    }
  }

  lemma TwoColons(a: string, b: string)
    ensures ":" + (":" + a + b) == "::" + (a + b)
  {
  }

  /** No address takes more than 39 characters. */
  lemma {:induction false} FormatLength(groups: seq<string>, best: Option<Run>, quad: Option<string>, i: nat)
    requires |groups| == WORDS && i <= WORDS && forall k | 0 <= k < WORDS :: |groups[k]| <= 4
    requires best.Some? ==> best.value.len >= 2
    requires quad.Some? ==> |quad.value| <= 15 && best.Some? && best.value.base == 0 && best.value.len >= 5
    ensures quad.Some? && i <= 6 ==>
              |FormatFrom(groups, best, quad, i)| <= (if i == 6 then 16 else if i > 0 then 21 else 22)
    ensures quad.None? ==>
              |FormatFrom(groups, best, quad, i)| <= (if i == WORDS then 1 else if i > 0 then 5 * (WORDS - i) else 39)
    ensures i == WORDS && (best.None? || best.value.base + best.value.len < WORDS)
            ==> FormatFrom(groups, best, quad, i) == ""
    decreases WORDS - i
  {
    if i < WORDS {
      FormatLength(groups, best, quad, i + 1);
    }
  }

  /** Whatever inet_ntop6 prints is short. */
  lemma PrintIsShort(w: seq<word>, best: Option<Run>)
    requires |w| == WORDS && Best(w, best)
    ensures |FormatFrom(HexWords(w), best, EmbeddedQuad(w, best), 0)| <= 39
  {
    hide Hex, Inet4.QuadText, FormatFrom;
    HexWordsAreShort(w);
    Inet4.QuadTextShape(Unpack(w[6..]));
    FormatLength(HexWords(w), best, EmbeddedQuad(w, best), 0);
  }

  /** ... and some address needs all 39 characters. */
  lemma LongestText()
    ensures exists a, text :: |a| == IN6ADDRSZ && Prints(a, text) && |text| == 39
  {
    var a: seq<byte> := seq(IN6ADDRSZ, _ => 0xff);
    var w := Pack(a);
    NoZeros(w);
    FourDigits();
    FullLength(HexWords(w), 0);
    FormatIsRender(HexWords(w), None, None);
    assert Prints(a, Render(PrintForm(w, None)));
  }

  lemma NoZeros(w: seq<word>)
    requires forall k | 0 <= k < |w| :: w[k] != 0
    ensures Best(w, None)
  {
    forall r: Run | r.len > 0 && r.base + r.len <= |w|
      ensures !ZeroRun(w, r)
    {
      assert w[r.base] != 0;
    }
  }

  lemma FourDigits()
    ensures Hex(0xffff) == "ffff"
  {
    assert Hex(0xffff) == Hex(0xfff) + "f" && Hex(0xfff) == Hex(0xff) + "f" && Hex(0xff) == Hex(0xf) + "f";
  }

  lemma {:induction false} FullLength(groups: seq<string>, i: nat)
    requires |groups| == WORDS && i <= WORDS && forall k | 0 <= k < WORDS :: |groups[k]| == 4
    ensures |FormatFrom(groups, None, None, i)| == if i == 0 then 39 else 5 * (WORDS - i)
    decreases WORDS - i
  {
    if i < WORDS {
      FullLength(groups, i + 1);
    }
  }

  // ------------------------------------------- the text from the bytes alone

  /** Words c to c + m of the address are zero. */
  ghost predicate ZeroWords(a: seq<byte>, c: nat, m: nat) {
    2 * (c + m) <= |a| && forall k | 2 * c <= k < 2 * (c + m) :: a[k] == 0
  }

  lemma ZeroWordsAreRun(a: seq<byte>, c: nat, m: nat)
    requires |a| == IN6ADDRSZ
    ensures ZeroWords(a, c, m) <==> ZeroRun(Pack(a), Run(c, m))
  {
    if ZeroRun(Pack(a), Run(c, m)) {
      forall k | 2 * c <= k < 2 * (c + m)
        ensures a[k] == 0
      {
        var j := k / 2;
        assert Pack(a)[j] == 0;
        BytesOfWord(a[2 * j], a[2 * j + 1]);
      }
    }
  }

  /** The groups of an address, two bytes each, high byte first. */
  function GroupsOf(a: seq<byte>): (groups: seq<string>)
    requires |a| == IN6ADDRSZ
    ensures |groups| == WORDS && groups == HexWords(Pack(a))
  {
    seq(WORDS, k requires 0 <= k < WORDS => Hex(Word(a[2 * k], a[2 * k + 1])))
  }

  lemma {:induction false} JoinHas(toks: seq<string>, c: char)
    requires c != ':'
    ensures c in Join(toks, ':') <==> exists k | 0 <= k < |toks| :: c in toks[k]
  {
    if |toks| > 1 {
      var front := toks[..|toks| - 1];
      JoinHas(front, c);
      if c in Join(front, ':') {
        var k :| 0 <= k < |front| && c in front[k];
        assert c in toks[k];
      }
      if k :| 0 <= k < |toks| && c in toks[k] {
        assert k < |front| ==> c in front[k];
      }
    } else if |toks| == 1 {
      assert Join(toks, ':') == toks[0];
    }
  }

  lemma GroupsHaveNoDot(w: seq<word>)
    ensures forall k | 0 <= k < |w| :: '.' !in HexWords(w)[k]
  {
    forall k | 0 <= k < |w|
      ensures '.' !in HexWords(w)[k]
    {
      HexRoundTrip(w[k]);
    }
  }

  /** A dot shows exactly that an IPv4 address is inside. */
  lemma DotShows(w: seq<word>, best: Option<Run>)
    requires |w| == WORDS && InBounds(best)
    ensures '.' in Render(PrintForm(w, best)) <==> Embedded(w, best)
  {
    hide Join, Hex, Inet4.QuadText;
    GroupsHaveNoDot(w);
    QuadDot(Unpack(w[6..]));
    var groups := HexWords(w);
    match best
    case None =>
      JoinHas(groups, '.');
    case Some(b) =>
      var right := Tail(groups, EmbeddedQuad(w, best), b.base + b.len);
      JoinHas(groups[..b.base], '.');
      JoinHas(right, '.');
      if Embedded(w, best) {
        assert '.' in right[|right| - 1];
      }
  }

  lemma QuadDot(a: seq<byte>)
    requires |a| == Inet4.INADDRSZ
    ensures '.' in Inet4.QuadText(a)
  {
    assert Inet4.QuadText(a)[|Dec(a[0])|] == '.';
  }

  /** The bytes for which an IPv4 address is inside. */
  lemma EmbeddedBytes(a: seq<byte>, best: Option<Run>)
    requires |a| == IN6ADDRSZ && Best(Pack(a), best)
    ensures Embedded(Pack(a), best) <==>
            a[..10] == Zeros(10) && (a[10..12] == [0xff, 0xff] || (a[10..12] == [0, 0] && a[12..14] != [0, 0]))
    ensures Embedded(Pack(a), best) ==> best.value.len == if a[10..12] == [0, 0] then 6 else 5
  {
    hide Embedded, Best, Word;
    EmbeddedWords(Pack(a), best);
    FirstBytes(a);
    WordBits(a[0], a[1]);
    WordBits(a[2], a[3]);
    WordBits(a[4], a[5]);
    WordBits(a[6], a[7]);
    WordBits(a[8], a[9]);
    WordBits(a[10], a[11]);
    WordBits(a[12], a[13]);
  }

  lemma WordBits(high: byte, low: byte)
    ensures Word(high, low) == 0 <==> high == 0 && low == 0
    ensures Word(high, low) == 0xffff <==> high == 0xff && low == 0xff
  {
  }

  lemma FirstBytes(a: seq<byte>)
    requires |a| == IN6ADDRSZ
    ensures a[..10] == Zeros(10) <==>
            a[0] == a[1] == a[2] == a[3] == a[4] == a[5] == a[6] == a[7] == a[8] == a[9] == 0
    ensures a[10..12] == [a[10], a[11]] && a[12..14] == [a[12], a[13]]
  {
    if a[..10] == Zeros(10) {
      assert forall k | 0 <= k < 10 :: a[k] == a[..10][k] == 0;
    }
  }

  lemma EmbeddedWords(w: seq<word>, best: Option<Run>)
    requires |w| == WORDS && Best(w, best)
    ensures Embedded(w, best) <==>
            && w[0] == w[1] == w[2] == w[3] == w[4] == 0
            && (w[5] == 0xffff || (w[5] == 0 && w[6] != 0))
    ensures Embedded(w, best) ==> best.value.len == if w[5] == 0 then 6 else 5
  {
    if w[0] == w[1] == w[2] == w[3] == w[4] == 0 && w[5] != 0 {
      FirstRun(w, 5);
      BestIsUnique(w, best, Some(Run(0, 5)));
    } else if w[0] == w[1] == w[2] == w[3] == w[4] == w[5] == 0 && w[6] != 0 {
      FirstRun(w, 6);
      BestIsUnique(w, best, Some(Run(0, 6)));
    } else if Embedded(w, best) {
      assert ZeroRun(w, Run(0, 7));
    }
  }

  lemma FirstRun(w: seq<word>, n: nat)
    requires |w| == WORDS && 4 < n < WORDS && w[n] != 0 && forall k | 0 <= k < n :: w[k] == 0
    ensures Best(w, Some(Run(0, n)))
  {
    forall r | ZeroRun(w, r) && r.len > 0
      ensures r.len <= n
    {
      assert w[n] != 0;
    }
  }

  /** An IPv4 address is printed inside exactly for ::ffff:a.b.c.d and for ::a.b.c.d with
      a.b not zero, and then the text is this. */
  lemma DottedText(a: seq<byte>, text: string)
    requires |a| == IN6ADDRSZ
    ensures Prints(a, text) ==>
              ('.' in text <==> a[..10] == Zeros(10) && (a[10..12] == [0xff, 0xff]
                                                         || (a[10..12] == [0, 0] && a[12..14] != [0, 0])))
    ensures Prints(a, text) && '.' in text ==>
              text == (if a[10..12] == [0, 0] then "::" else "::ffff:") + Inet4.QuadText(a[12..])
  {
    hide Embedded, Render, PrintForm, Inet4.QuadText;
    if best :| Best(Pack(a), best) && text == Render(PrintForm(Pack(a), best)) {
      EmbeddedBytes(a, best);
      DotShows(Pack(a), best);
      if Embedded(Pack(a), best) {
        EmbeddedText(Pack(a), best);
        LastFour(a);
      }
    }
  }

  lemma EmbeddedText(w: seq<word>, best: Option<Run>)
    requires |w| == WORDS && InBounds(best) && Embedded(w, best)
    ensures Render(PrintForm(w, best)) ==
            (if best.value.len == 6 then "::" else "::ffff:") + Inet4.QuadText(Unpack(w[6..]))
  {
    hide Hex, Inet4.QuadText, Unpack, Render, FormOf;
    FourDigits();
    QuadOnly(HexWords(w), best.value.len, Inet4.QuadText(Unpack(w[6..])));
  }

  lemma QuadOnly(groups: seq<string>, len: nat, quad: string)
    requires |groups| == WORDS && 5 <= len <= 6 && (len == 5 ==> groups[5] == "ffff")
    ensures Render(FormOf(groups, Some(Run(0, len)), Some(quad))) == (if len == 6 then "::" else "::ffff:") + quad
  {
    hide Join;
    JoinNothing(groups[..0]);
    if len == 6 {
      assert Tail(groups, Some(quad), 6) == [quad];
    } else {
      assert Tail(groups, Some(quad), 5) == ["ffff", quad];
    }
    JoinTwo("ffff", quad);
  }

  lemma JoinTwo(a: string, b: string)
    ensures Join([b], ':') == b && "" + "::" + b == "::" + b
    ensures Join([a, b], ':') == a + ":" + b
    ensures "" + "::" + ("ffff" + ":" + b) == "::ffff:" + b
  {
    assert [a, b][..1] == [a];
    assert Join([a], ':') == a;
  }

  /** Without two zero words in a row the text is the eight groups. */
  lemma UngappedText(a: seq<byte>, text: string)
    requires |a| == IN6ADDRSZ && forall k | 0 <= k < WORDS - 1 :: !ZeroWords(a, k, 2)
    ensures Prints(a, text) ==> text == Join(GroupsOf(a), ':')
  {
    hide Pack, HexWords, Join;
    if best :| Best(Pack(a), best) && text == Render(PrintForm(Pack(a), best)) {
      if best.Some? {
        var b := best.value.base;
        assert ZeroRun(Pack(a), Run(b, 2));
        ZeroWordsAreRun(a, b, 2);
      }
    }
  }

  /** Without an IPv4 address inside, "::" stands for the leftmost of the longest runs of at
      least two zero words, and the groups around it are written out. */
  lemma GappedText(a: seq<byte>, text: string, b: nat, n: nat)
    requires |a| == IN6ADDRSZ && ZeroWords(a, b, n) && n >= 2
    requires forall c: nat, m: nat | ZeroWords(a, c, m) :: m < n || (m == n && b <= c)
    ensures Prints(a, text) && '.' !in text ==>
              text == Join(GroupsOf(a)[..b], ':') + "::" + Join(GroupsOf(a)[b + n..], ':')
  {
    hide Pack, HexWords, Join, ZeroWords, Embedded;
    var w := Pack(a);
    if best :| Best(w, best) && text == Render(PrintForm(w, best)) && '.' !in text {
      ZeroWordsAreRun(a, b, n);
      forall r | ZeroRun(w, r)
        ensures r.len < n || (r.len == n && b <= r.base)
      {
        ZeroWordsAreRun(a, r.base, r.len);
      }
      BestIsUnique(w, best, Some(Run(b, n)));
      DotShows(w, best);
    }
  }

  // ------------------------------------------- the function itself

  /** Copies the bytes into words, high byte first. */
  method PackWords(src: seq<byte>, words: array<word>)
    requires |src| == IN6ADDRSZ && words.Length == WORDS
    modifies words
    ensures words[..] == Pack(src)
  {
    forall k | 0 <= k < WORDS {
      words[k] := 0;
    }
    var i := 0;
    while i < IN6ADDRSZ
      invariant 0 <= i <= IN6ADDRSZ
      invariant forall k | 0 <= k < i / 2 :: words[k] == Pack(src)[k]
      invariant i % 2 == 1 ==> words[i / 2] == Word(src[i - 1], 0)
      invariant forall k | (i + 1) / 2 <= k < WORDS :: words[k] == 0
    {
      var shifted := if i % 2 == 0 then Word(src[i], 0) else Word(0, src[i]);
      words[i / 2] := words[i / 2] + shifted;
      i := i + 1;
    }
  }

  /** cur is the whole run of zeros that ends just before i, best the leftmost longest
      of the runs that ended earlier. */
  ghost predicate Searched(w: seq<word>, i: nat, best: Option<Run>, cur: Option<Run>)
    requires i <= |w|
  {
    && (cur.Some? ==> cur.value.len > 0 && cur.value.base + cur.value.len == i && ZeroRun(w, cur.value)
                      && (cur.value.base == 0 || w[cur.value.base - 1] != 0))
    && (cur.None? ==> i == 0 || w[i - 1] != 0)
    && var end := if cur.Some? then cur.value.base else i;
    && (best.Some? ==> ZeroRun(w, best.value) && 0 < best.value.len && best.value.base + best.value.len <= end)
    && (forall r | ZeroRun(w, r) && r.base + r.len <= end && r.len > 0 ::
          best.Some? && (r.len < best.value.len || (r.len == best.value.len && best.value.base <= r.base)))
  }

  lemma SearchStart(w: seq<word>)
    ensures Searched(w, 0, None, None)
  {
  }

  /** The longer of two runs, the earlier one of two equally long ones. */
  function Longer(best: Option<Run>, cur: Option<Run>): Option<Run> {
    if cur.Some? && (best.None? || cur.value.len > best.value.len) then cur else best
  }

  lemma SearchStep(w: seq<word>, i: nat, best: Option<Run>, cur: Option<Run>)
    requires i < |w| && Searched(w, i, best, cur)
    ensures w[i] == 0 ==>
              Searched(w, i + 1, best, Some(if cur.None? then Run(i, 1) else Run(cur.value.base, cur.value.len + 1)))
    ensures w[i] != 0 ==> Searched(w, i + 1, Longer(best, cur), None)
  {
  }

  lemma SearchEnd(w: seq<word>, best: Option<Run>, cur: Option<Run>)
    requires Searched(w, |w|, best, cur)
    ensures var b := Longer(best, cur); Best(w, if b.Some? && b.value.len < 2 then None else b)
  {
  }

  /** The search for the run of zero words that "::" will stand for. */
  method FindBest(words: array<word>) returns (best: Option<Run>)
    requires words.Length == WORDS
    ensures Best(words[..], best)
  {
    hide Searched, Best, ZeroRun;
    ghost var w := words[..];
    SearchStart(w);
    var cur: Option<Run> := None;
    best := None;
    var i := 0;
    while i < WORDS
      invariant 0 <= i <= WORDS
      invariant w == words[..] && Searched(w, i, best, cur)
    {
      SearchStep(w, i, best, cur);
      if words[i] == 0 {
        cur := Some(if cur.None? then Run(i, 1) else Run(cur.value.base, cur.value.len + 1));
      } else if cur.Some? {
        if best.None? || cur.value.len > best.value.len {
          best := cur;
        }
        cur := None;
      }
      i := i + 1;
    }
    SearchEnd(w, best, cur);
    if cur.Some? {
      if best.None? || cur.value.len > best.value.len {
        best := cur;
      }
    }
    if best.Some? && best.value.len < 2 {
      best := None;
    }
  }

  /** sprintf() at the cursor: the text and, after the new cursor, its NUL. */
  method Sprintf(tmp: array<char>, tp: nat, text: string) returns (next: nat)
    requires tp + |text| + 1 <= tmp.Length
    modifies tmp
    ensures next == tp + |text| && tmp[..next] == old(tmp[..tp]) + text && tmp[next] == '\0'
  {
    ghost var before := tmp[..];
    Memcpy(tmp, tp, text);
    next := tp + |text|;
    ghost var filled := before[..tp] + text;
    assert tmp[..next] == filled;
    tmp[next] := '\0';
    assert tmp[..next] == filled;
  }

  /** *tp++ = c */
  method Put(tmp: array<char>, tp: nat, c: char) returns (next: nat)
    requires tp < tmp.Length
    modifies tmp
    ensures next == tp + 1 && tmp[..next] == old(tmp[..tp]) + [c]
  {
    tmp[tp] := c;
    next := tp + 1;
  }

  /** One turn of the formatting loop; last is the break after an embedded IPv4 address. */
  method FormatWord(words: seq<word>, best: Option<Run>, src: seq<byte>, i: nat, tmp: array<char>, tp: nat,
                    ghost groups: seq<string>, ghost quad: Option<string>)
    returns (next: nat, last: bool)
    requires |words| == |groups| == WORDS && |src| == IN6ADDRSZ && i < WORDS && groups[i] == Hex(words[i])
    requires quad == if Embedded(words, best) then Some(Inet4.QuadText(src[12..])) else None
    requires tp + |Turn(groups, best, quad, i)| + 1 <= tmp.Length
    modifies tmp
    ensures last <==> i == 6 && quad.Some? && !InRun(best, i)
    ensures var turn := Turn(groups, best, quad, i);
            next == tp + |turn| && tmp[..next] == old(tmp[..tp]) + turn
  {
    next, last := tp, false;
    if best.Some? && i >= best.value.base && i < best.value.base + best.value.len {
      if i == best.value.base {
        next := Put(tmp, next, ':');
      }
      return;
    }
    ghost var before, colon := tmp[..tp], if i != 0 then ":" else "";
    if i != 0 {
      next := Put(tmp, next, ':');
    }
    assert tmp[..next] == before + colon;
    ghost var piece := if i == 6 && quad.Some? then quad.value else groups[i];
    Associate(before, colon, piece);
    if i == 6 && best.Some? && best.value.base == 0
       && (best.value.len == 6 || (best.value.len == 5 && words[5] == 0xffff))
    {
      next := Sprintf(tmp, next, Inet4.QuadText(src[12..]));
      last := true;
    } else {
      next := Sprintf(tmp, next, Hex(words[i]));
    }
  }

  /** The arguments of the formatting loop, and the text it has to write. */
  ghost predicate Formats(words: seq<word>, best: Option<Run>, src: seq<byte>,
                          groups: seq<string>, quad: Option<string>, text: string)
  {
    && |words| == |groups| == WORDS && |src| == IN6ADDRSZ
    && (forall k | 0 <= k < WORDS :: groups[k] == Hex(words[k]))
    && quad == (if Embedded(words, best) then Some(Inet4.QuadText(src[12..])) else None)
    && text == FormatFrom(groups, best, quad, 0) && |text| <= 39
  }

  /** The formatting loop. */
  method FormatWords(words: seq<word>, best: Option<Run>, src: seq<byte>, tmp: array<char>,
                     ghost groups: seq<string>, ghost quad: Option<string>, ghost text: string)
    returns (tp: nat)
    requires Formats(words, best, src, groups, quad, text) && tmp.Length == TMPSIZE
    modifies tmp
    ensures tp <= |text| && tmp[..tp] + Closing(best) == text
  {
    hide Hex, Inet4.QuadText, FormatFrom;
    ghost var out, rest := "", text;
    tp := 0;
    var i, last := 0, false;
    while i < WORDS && !last
      invariant 0 <= i <= WORDS && tp == |out| && tp + |rest| == |text|
      invariant tmp[..tp] == out && out + rest == text
      invariant rest == (if last then "" else FormatFrom(groups, best, quad, i))
      invariant last ==> quad.Some?
      decreases WORDS - i, !last
    {
      ghost var turn := Turn(groups, best, quad, i);
      FormatTurn(groups, best, quad, i);
      tp, last := FormatWord(words, best, src, i, tmp, tp, groups, quad);
      i := if last then i else i + 1;
      rest := if last then "" else FormatFrom(groups, best, quad, i);
      Associate(out, turn, rest);
      out := out + turn;
    }
    FormatEnd(groups, best, quad);
  }

  /** The formatting loop, the check for a trailing run and the final NUL. Every store
      is inside tmp, so the buffer cannot overflow. */
  method Format(words: seq<word>, best: Option<Run>, src: seq<byte>, tmp: array<char>,
                ghost groups: seq<string>, ghost quad: Option<string>, ghost text: string)
    returns (tp: nat)
    requires Formats(words, best, src, groups, quad, text) && tmp.Length == TMPSIZE
    modifies tmp
    ensures tp == |text| + 1 && tmp[..tp] == text + "\0"
  {
    tp := FormatWords(words, best, src, tmp, groups, quad, text);
    if best.Some? && best.value.base + best.value.len == WORDS {
      tp := Put(tmp, tp, ':');
    }
    tp := Put(tmp, tp, '\0');
  }

  lemma FormattedText(src: seq<byte>, words: seq<word>, best: Option<Run>)
    returns (groups: seq<string>, quad: Option<string>, text: string)
    requires |src| == IN6ADDRSZ && words == Pack(src) && Best(words, best)
    ensures Prints(src, text) && Formats(words, best, src, groups, quad, text)
  {
    hide Hex, FormatFrom, Render, Inet4.QuadText, FormOf, HexWords;
    LastFour(src);
    groups, quad := HexWords(words), EmbeddedQuad(words, best);
    HexWordsAre(words);
    PrintIsShort(words, best);
    FormatIsRender(groups, best, quad);
    text := Render(PrintForm(words, best));
  }

  lemma LastFour(a: seq<byte>)
    requires |a| == IN6ADDRSZ
    ensures Unpack(Pack(a)[6..]) == a[12..]
  {
    var w := Pack(a)[6..];
    assert w == [Word(a[12], a[13]), Word(a[14], a[15])];
    assert Unpack(w) == [w[0] / 256, w[0] % 256, w[1] / 256, w[1] % 256];
  }

  lemma HexWordsAre(w: seq<word>)
    ensures forall k | 0 <= k < |w| :: HexWords(w)[k] == Hex(w[k])
  {
  }

  /** The check for overflow and the copy. */
  method Strcpy(dst: array<char>, tmp: array<char>, tp: nat, size: nat) returns (ok: bool)
    requires tp <= tmp.Length && size <= dst.Length
    modifies dst
    ensures ok <==> tp <= size
    ensures ok ==> dst[..] == old(tmp[..tp]) + old(dst[tp..])
    ensures !ok ==> dst[..] == old(dst[..])
  {
    ok := tp <= size;
    if ok {
      Memcpy(dst, 0, tmp[..tp]);
    }
  }

  /** inet_ntop6: whether size bytes are enough, and dst, which gets the text and a NUL. */
  method InetNtop6(src: seq<byte>, dst: array<char>, size: nat) returns (ok: bool, ghost text: string)
    requires |src| == IN6ADDRSZ && size <= dst.Length
    modifies dst
    ensures Prints(src, text) && |text| <= 39
    ensures ok <==> |text| + 1 <= size
    ensures ok ==> dst[..] == text + "\0" + old(dst[|text| + 1..])
    ensures !ok ==> dst[..] == old(dst[..])
  {
    var words := new word[WORDS];
    PackWords(src, words);
    var best := FindBest(words);
    ghost var groups, quad;
    groups, quad, text := FormattedText(src, words[..], best);
    var tmp := new char[TMPSIZE];
    var tp := Format(words[..], best, src, tmp, groups, quad, text);
    ok := Strcpy(dst, tmp, tp, size);
  }
}
