/** IPv6 text to binary: inet_pton6 of libfree/inet_pton.c. */
module Inet6Parse {
  import opened Base
  import opened Text
  import opened Numerals
  import Inet4

  const IN6ADDRSZ := 16
  const INT16SZ := 2

  /** One hexadecimal group. The parser bounds the value, not the number of digits. */
  predicate IsGroup(tok: string) {
    tok != "" && IsHexDigits(tok) && HexValue(tok) <= 0xffff
  }

  function WordBytes(w: nat): (b: seq<byte>)
    requires w <= 0xffff
    ensures |b| == INT16SZ
  {
    [w / 256, w % 256]
  }

  /** The bytes read so far and, after a "::", how many of them stand before it. */
  datatype Image = Image(bytes: seq<byte>, gap: Option<nat>)

  ghost predicate Sound(img: Image) {
    |img.bytes| <= IN6ADDRSZ && (img.gap.Some? ==> img.gap.value <= |img.bytes|)
  }

  // ------------------------------------------- meaning, token by token

  function Append(img: Image, more: seq<byte>): Option<Image> {
    if |img.bytes| + |more| <= IN6ADDRSZ then Some(Image(img.bytes + more, img.gap)) else None
  }

  /** A token that a colon ends: a group, or nothing, which marks the gap once. */
  function ColonToken(img: Image, tok: string): Option<Image> {
    if tok == "" then
      if img.gap.Some? then None else Some(Image(img.bytes, Some(|img.bytes|)))
    else if IsGroup(tok) then Append(img, WordBytes(HexValue(tok)))
    else None
  }

  /** The token that ends the text: nothing, a group or a dotted quad. */
  function LastToken(img: Image, tok: string): Option<Image> {
    if tok == "" then Some(img)
    else if IsGroup(tok) then Append(img, WordBytes(HexValue(tok)))
    else if Inet4.Quad(tok).Some? then Append(img, Inet4.Quad(tok).value)
    else None
  }

  function ColonTokens(toks: seq<string>): (img: Option<Image>)
    ensures img.Some? ==> Sound(img.value)
  {
    if toks == [] then Some(Image([], None))
    else
      var before := ColonTokens(toks[..|toks| - 1]);
      if before.None? then None else ColonToken(before.value, toks[|toks| - 1])
  }

  function AllTokens(toks: seq<string>): (img: Option<Image>)
    requires |toks| >= 1
    ensures img.Some? ==> Sound(img.value)
  {
    var before := ColonTokens(toks[..|toks| - 1]);
    if before.None? then None else LastToken(before.value, toks[|toks| - 1])
  }

  /** The address an image stands for. With a gap, what follows it moves to the end;
      but when all 16 bytes were spelled out already, the parser clears what follows. */
  function Expand(img: Image): (a: Option<seq<byte>>)
    requires Sound(img)
    ensures a.Some? ==> |a.value| == IN6ADDRSZ
  {
    var n := |img.bytes|;
    match img.gap
    case None => if n == IN6ADDRSZ then Some(img.bytes) else None
    case Some(g) =>
      if n == IN6ADDRSZ then Some(img.bytes[..g] + Zeros(IN6ADDRSZ - g))
      else Some(img.bytes[..g] + Zeros(IN6ADDRSZ - n) + img.bytes[g..])
  }

  /** The address a text denotes to this parser, if any. */
  function Address(s: string): (a: Option<seq<byte>>)
    ensures a.Some? ==> |a.value| == IN6ADDRSZ
  {
    if s != "" && s[0] == ':' && !(|s| > 1 && s[1] == ':') then None
    else
      var img := AllTokens(Split(s[Lead(s)..], ':'));
      if img.None? then None else Expand(img.value)
  }

  /** The first colon of a leading "::" is skipped. */
  function Lead(s: string): (k: nat)
    ensures k <= |s|
  {
    if s != "" && s[0] == ':' then 1 else 0
  }

  // ------------------------------------------- the scan, character by character

  /** The loop of inet_pton6 from index i on; curtok is where the current token
      starts, value and sawXdigit are what it holds so far. */
  function ScanFrom(s: string, i: nat, img: Image, curtok: nat, value: nat, sawXdigit: bool): Option<Image>
    requires curtok <= i <= |s| && value <= 0xffff
    decreases |s| - i
  {
    if i == |s| then
      if sawXdigit then Append(img, WordBytes(value)) else Some(img)
    else if IsHex(s[i]) then
      if value * 16 + HexVal(s[i]) > 0xffff then None
      else ScanFrom(s, i + 1, img, curtok, value * 16 + HexVal(s[i]), true)
    else if s[i] == ':' then
      var next := if sawXdigit then Append(img, WordBytes(value))
                  else if img.gap.Some? then None
                  else Some(Image(img.bytes, Some(|img.bytes|)));
      if next.None? then None else ScanFrom(s, i + 1, next.value, i + 1, 0, false)
    else if s[i] == '.' && Inet4.Quad(s[curtok..]).Some? then
      Append(img, Inet4.Quad(s[curtok..]).value)
    else None
  }

  /** A token so far is nothing or a group. */
  ghost predicate Begun(tok: string) {
    tok == "" || IsGroup(tok)
  }

  /** The tokens before index i of the text are fine. */
  ghost predicate Ready(s: string, i: nat, toks: seq<string>) {
    && i <= |s| && |toks| >= 1
    && var n := |toks| - 1;
    && Begun(toks[n]) && |toks[n]| <= i && s[i - |toks[n]|..i] == toks[n]
    && ColonTokens(toks[..n]).Some?
  }

  /** The scan from i on. */
  ghost function ScanRest(s: string, i: nat, toks: seq<string>): Option<Image>
    requires Ready(s, i, toks)
  {
    var n := |toks| - 1;
    ScanFrom(s, i, ColonTokens(toks[..n]).value, i - |toks[n]|,
             if toks[n] == "" then 0 else HexValue(toks[n]), toks[n] != "")
  }

  lemma {:induction false} ScanMeaning(s: string, i: nat, toks: seq<string>)
    requires Ready(s, i, toks) && toks == Split(s[..i], ':')
    ensures ScanRest(s, i, toks) == AllTokens(Split(s, ':'))
    decreases |s| - i
  {
    hide Split, ScanRest, AllTokens, ColonTokens, Begun;
    if i == |s| {
      assert s[..i] == s;
      ScanEnd(s, toks);
    } else {
      SplitAt(s, i, ':');
      if s[i] == ':' && ColonTokens(toks).Some? {
        ScanColon(s, i, toks);
        ScanMeaning(s, i + 1, toks + [""]);
      } else if s[i] != ':' && IsHex(s[i]) && Begun(toks[|toks| - 1] + [s[i]]) {
        ScanHex(s, i, toks);
        ScanMeaning(s, i + 1, Grow(toks, [s[i]]));
      } else {
        ScanStops(s, i, toks);
      }
    }
  }

  /** The character at i decides the whole text. */
  lemma ScanStops(s: string, i: nat, toks: seq<string>)
    requires Ready(s, i, toks) && i < |s| && toks == Split(s[..i], ':')
    requires if s[i] == ':' then ColonTokens(toks).None?
             else !IsHex(s[i]) || !Begun(toks[|toks| - 1] + [s[i]])
    ensures ScanRest(s, i, toks) == AllTokens(Split(s, ':'))
  {
    hide Split, ScanRest, AllTokens, ColonTokens, Ready, Begun;
    var late := Split(s, ':');
    if s[i] == ':' {
      SplitAt(s, i, ':');
      SplitPrefix(s, ':', i + 1);
      ScanBadToken(s, i, toks, late);
    } else {
      SplitThrough(s, i, ':');
      if IsHex(s[i]) {
        ScanTooBig(s, i, toks, late);
      } else if s[i] != '.' {
        ScanForeign(s, i, toks, late);
      } else if ':' in s[i..] {
        ScanDotInside(s, i, toks, late);
      } else {
        ScanDotLast(s, i, toks);
      }
    }
  }

  lemma ScanEnd(s: string, toks: seq<string>)
    requires Ready(s, |s|, toks)
    ensures ScanRest(s, |s|, toks) == AllTokens(toks)
  {
  }

  lemma ScanHex(s: string, i: nat, toks: seq<string>)
    requires Ready(s, i, toks) && i < |s|
    requires IsHex(s[i]) && Begun(toks[|toks| - 1] + [s[i]])
    ensures var next := Grow(toks, [s[i]]);
            Ready(s, i + 1, next) && ScanRest(s, i, toks) == ScanRest(s, i + 1, next)
  {
    var n := |toks| - 1;
    var tok, next := toks[n], Grow(toks, [s[i]]);
    assert next[..n] == toks[..n];
    assert (tok + [s[i]])[..|tok|] == tok;
    assert s[i - |tok|..i + 1] == s[i - |tok|..i] + [s[i]];
    assert HexValue("") == 0;
  }

  lemma ScanColon(s: string, i: nat, toks: seq<string>)
    requires Ready(s, i, toks) && i < |s| && s[i] == ':' && ColonTokens(toks).Some?
    ensures var next := toks + [""];
            Ready(s, i + 1, next) && ScanRest(s, i, toks) == ScanRest(s, i + 1, next)
  {
    assert (toks + [""])[..|toks|] == toks;
  }

  /** A token that the colon after it spoils decides the whole text. */
  lemma ScanBadToken(s: string, i: nat, toks: seq<string>, late: seq<string>)
    requires Ready(s, i, toks) && i < |s| && s[i] == ':' && ColonTokens(toks).None?
    requires Continues(toks + [""], late)
    ensures ScanRest(s, i, toks) == AllTokens(late) == None
  {
    var n := |toks|;
    assert late[..|late| - 1][..n] == late[..n] == (toks + [""])[..n] == toks;
    ColonTokensPrefix(late[..|late| - 1], n);
  }

  lemma {:induction false} ColonTokensPrefix(toks: seq<string>, k: nat)
    requires k <= |toks| && ColonTokens(toks[..k]).None?
    ensures ColonTokens(toks).None?
    decreases |toks|
  {
    if k == |toks| {
      assert toks[..k] == toks;
    } else {
      assert toks[..|toks| - 1][..k] == toks[..k];
      ColonTokensPrefix(toks[..|toks| - 1], k);
    }
  }

  /** The open token gets the character at i, and maybe more. */
  ghost predicate Opens(s: string, i: nat, toks: seq<string>, late: seq<string>)
    requires i < |s|
  {
    var n := |toks| - 1;
    0 <= n < |late| && toks[n] + [s[i]] <= late[n]
  }

  lemma ScanTooBig(s: string, i: nat, toks: seq<string>, late: seq<string>)
    requires Ready(s, i, toks) && i < |s| && Opens(s, i, toks, late)
    requires IsHex(s[i]) && !Begun(toks[|toks| - 1] + [s[i]])
    ensures ScanRest(s, i, toks) == AllTokens(late) == None
  {
    var n := |toks| - 1;
    var part := toks[n] + [s[i]];
    assert part[..|toks[n]|] == toks[n];
    assert HexValue("") == 0;
    assert HexValue(part) > 0xffff;
    assert late[n][..|part|] == part;
    if IsHexDigits(late[n]) {
      HexGrows(late[n], |part|);
    }
    TooBigIsNoQuad(late[n], |part|);
    NotAGroup(late, n);
  }

  /** Token n is neither empty nor a group nor a dotted quad. */
  lemma NotAGroup(toks: seq<string>, n: nat)
    requires n < |toks| && toks[n] != "" && !IsGroup(toks[n])
    requires n == |toks| - 1 ==> Inet4.Quad(toks[n]).None?
    ensures AllTokens(toks).None?
  {
    if n < |toks| - 1 {
      var c := toks[..|toks| - 1];
      assert c[..n + 1][..n] == c[..n] && c[..n + 1][n] == toks[n];
      ColonTokensPrefix(c, n + 1);
    }
  }

  /** A hexadecimal numeral over 0xffff does not begin a dotted quad. */
  lemma TooBigIsNoQuad(t: string, k: nat)
    requires k <= |t| && IsHexDigits(t[..k]) && HexValue(t[..k]) > 0xffff
    ensures Inet4.Quad(t).None?
  {
    if Inet4.IsQuad(Split(t, '.')) {
      SplitFree(t[..k], '.');
      SplitPrefix(t, '.', k);
      var first := Split(t, '.')[0];
      assert Inet4.IsOctet(first) && first[..k] == t[..k];
      DecGrows(first, k);
      HexOfDec(t[..k]);
    }
  }

  lemma ScanForeign(s: string, i: nat, toks: seq<string>, late: seq<string>)
    requires Ready(s, i, toks) && i < |s| && Opens(s, i, toks, late)
    requires !IsHex(s[i]) && s[i] != ':' && s[i] != '.'
    ensures ScanRest(s, i, toks) == AllTokens(late) == None
  {
    var n := |toks| - 1;
    assert s[i] in toks[n] + [s[i]];
    assert s[i] in late[n];
    if Inet4.Quad(late[n]).Some? {
      Inet4.QuadCharset(late[n]);
    }
    NotAGroup(late, n);
  }

  /** A token with a dot in it that a colon ends is bad. */
  lemma ScanDotInside(s: string, i: nat, toks: seq<string>, late: seq<string>)
    requires Ready(s, i, toks) && i < |s| && Opens(s, i, toks, late)
    requires s[i] == '.' && ':' in s[i..] && |toks| < |late|
    ensures ScanRest(s, i, toks) == AllTokens(late) == None
  {
    var n := |toks| - 1;
    assert '.' in toks[n] + [s[i]];
    assert '.' in late[n];
    NotAGroup(late, n);
    var tail := s[i - |toks[n]|..];
    assert tail == toks[n] + s[i..] && ':' in tail;
    if Inet4.Quad(tail).Some? {
      Inet4.QuadCharset(tail);
    }
  }

  /** A token with a dot in it that ends the text is the argument of inet_pton4. */
  lemma ScanDotLast(s: string, i: nat, toks: seq<string>)
    requires Ready(s, i, toks) && i < |s| && s[i] == '.'
    ensures ScanRest(s, i, toks) == AllTokens(Grow(toks, s[i..]))
  {
    var n := |toks| - 1;
    hide Split, Inet4.Quad, HexValue, WordBytes, Begun;
    var tail := s[i - |toks[n]|..];
    assert tail == toks[n] + s[i..];
    var late := Grow(toks, s[i..]);
    assert late[n] == tail && late[..n] == toks[..n];
    assert s[i] == s[i..][0];
    assert '.' in tail;
    var img := ColonTokens(toks[..n]).value;
    assert AllTokens(late) == LastToken(img, tail);
  }

  // ------------------------------------------- the function itself

  lemma AddressByScan(s: string)
    requires s != "" && s[0] == ':' ==> |s| > 1 && s[1] == ':'
    ensures Address(s) == var img := ScanFrom(s[Lead(s)..], 0, Image([], None), 0, 0, false);
                          if img.Some? && Sound(img.value) then Expand(img.value) else None
  {
    var t := s[Lead(s)..];
    assert t[..0] == "" && [""][..0] == [];
    assert Ready(t, 0, [""]);
    ScanMeaning(t, 0, [""]);
  }

  // ------------------------------------------- letter case

  /** The same character, or the same letter of the two digit tables. */
  predicate SameButCase(c: char, d: char) {
    c == d || exists k | 10 <= k < 16 :: (LOWER[k] == c && UPPER[k] == d) || (UPPER[k] == c && LOWER[k] == d)
  }

  ghost predicate EqualButCase(s: string, t: string) {
    |s| == |t| && forall k | 0 <= k < |s| :: SameButCase(s[k], t[k])
  }

  /** The case of hexadecimal letters never matters. */
  lemma CaseDoesNotMatter(s: string, t: string)
    requires EqualButCase(s, t)
    ensures Address(s) == Address(t)
  {
    hide Address, Expand, ScanFrom;
    SameStart(s, t);
    if s != "" && s[0] == ':' && !(|s| > 1 && s[1] == ':') {
      BadStart(s);
      BadStart(t);
    } else {
      AddressByScan(s);
      AddressByScan(t);
      ScanSame(s[Lead(s)..], t[Lead(t)..], 0, Image([], None), 0, 0, false);
    }
  }

  lemma SameStart(s: string, t: string)
    requires EqualButCase(s, t)
    ensures forall k | 0 <= k < |s| :: s[k] == ':' <==> t[k] == ':'
    ensures Lead(s) == Lead(t) && EqualButCase(s[Lead(s)..], t[Lead(t)..])
  {
    forall k | 0 <= k < |s|
      ensures s[k] == ':' <==> t[k] == ':'
    {
      SameDigit(s[k], t[k]);
    }
  }

  lemma BadStart(s: string)
    requires s != "" && s[0] == ':' && !(|s| > 1 && s[1] == ':')
    ensures Address(s) == None
  {
  }

  lemma SameDigit(c: char, d: char)
    requires SameButCase(c, d)
    ensures IsHex(c) <==> IsHex(d)
    ensures IsHex(c) ==> HexVal(c) == HexVal(d)
    ensures c != d ==> IsHex(c) && !IsDigit(c) && !IsDigit(d) && c != ':' && c != '.' && d != ':' && d != '.'
  {
    if c != d {
      var k :| 10 <= k < 16 && ((LOWER[k] == c && UPPER[k] == d) || (UPPER[k] == c && LOWER[k] == d));
      DigitIsIndex(c);
      DigitIsIndex(d);
    }
  }

  lemma {:induction false} ScanSame(s: string, t: string, i: nat, img: Image, curtok: nat, value: nat, sawXdigit: bool)
    requires EqualButCase(s, t) && curtok <= i <= |s| && value <= 0xffff
    ensures ScanFrom(s, i, img, curtok, value, sawXdigit) == ScanFrom(t, i, img, curtok, value, sawXdigit)
    decreases |s| - i
  {
    hide HexVal, Inet4.Quad, WordBytes, SameButCase, IsHex;
    if i < |s| {
      assert SameButCase(s[i], t[i]);
      SameDigit(s[i], t[i]);
      if IsHex(s[i]) {
        if value * 16 + HexVal(s[i]) <= 0xffff {
          ScanSame(s, t, i + 1, img, curtok, value * 16 + HexVal(s[i]), true);
        }
      } else if s[i] == ':' {
        var next := if sawXdigit then Append(img, WordBytes(value))
                    else if img.gap.Some? then None
                    else Some(Image(img.bytes, Some(|img.bytes|)));
        if next.Some? {
          ScanSame(s, t, i + 1, next.value, i + 1, 0, false);
        }
      } else {
        QuadSame(s[curtok..], t[curtok..]);
      }
    }
  }

  /** A letter spoils a dotted quad in either case. */
  lemma QuadSame(s: string, t: string)
    requires EqualButCase(s, t)
    ensures Inet4.Quad(s) == Inet4.Quad(t)
  {
    hide Inet4.Quad;
    if s != t {
      var k :| 0 <= k < |s| && s[k] != t[k];
      assert SameButCase(s[k], t[k]);
      SameDigit(s[k], t[k]);
      assert s[k] in s && t[k] in t;
      if Inet4.Quad(s).Some? {
        Inet4.QuadCharset(s);
      }
      if Inet4.Quad(t).Some? {
        Inet4.QuadCharset(t);
      }
    }
  }

  // ------------------------------------------- the loop and the shift

  /** The loop of inet_pton6: fills tmp from the front and stops at tp; colonp is the
      position of the gap, if there was one. */
  method ScanText(src: string, tmp: array<byte>) returns (ok: bool, tp: nat, colonp: Option<nat>)
    requires tmp.Length == IN6ADDRSZ && tmp[..] == Zeros(IN6ADDRSZ)
    modifies tmp
    ensures var img := ScanFrom(src, 0, Image([], None), 0, 0, false);
            && (ok <==> img.Some?)
            && (ok ==> Sound(img.value) && tp == |img.value.bytes| && colonp == img.value.gap
                       && tmp[..] == img.value.bytes + Zeros(IN6ADDRSZ - tp))
  {
    hide Inet4.Quad;
    ghost var img := Image([], None);
    tp, colonp := 0, None;
    var curtok, sawXdigit, val, i := 0, false, 0, 0;
    while i < |src|
      invariant 0 <= curtok <= i <= |src| && 0 <= val <= 0xffff && (!sawXdigit ==> val == 0)
      invariant Sound(img) && tp == |img.bytes| && colonp == img.gap
      invariant forall k | 0 <= k < IN6ADDRSZ :: tmp[k] == if k < tp then img.bytes[k] else 0
      invariant ScanFrom(src, i, img, curtok, val, sawXdigit)
                == ScanFrom(src, 0, Image([], None), 0, 0, false)
    {
      var ch := src[i];
      i := i + 1;
      if IsHex(ch) {
        val := val * 16 + HexVal(ch);
        if val > 0xffff {
          return false, tp, colonp;
        }
        sawXdigit := true;
        continue;
      }
      if ch == ':' {
        curtok := i;
        if !sawXdigit {
          if colonp.Some? {
            return false, tp, colonp;
          }
          colonp := Some(tp);
          img := Image(img.bytes, colonp);
          continue;
        }
        if tp + INT16SZ > IN6ADDRSZ {
          return false, tp, colonp;
        }
        tmp[tp], tmp[tp + 1] := val / 256, val % 256;
        tp := tp + INT16SZ;
        img := Image(img.bytes + WordBytes(val), colonp);
        sawXdigit, val := false, 0;
        continue;
      }
      if ch == '.' && tp + Inet4.INADDRSZ <= IN6ADDRSZ {
        ghost var before := tmp[..];
        var quad := Inet4.InetPton4(src[curtok..], tmp, tp);
        if quad {
          ghost var a := Inet4.Quad(src[curtok..]).value;
          assert tmp[..] == before[..tp] + a + before[tp + Inet4.INADDRSZ..];
          assert before[..tp] == img.bytes;
          assert before[tp + Inet4.INADDRSZ..] == Zeros(IN6ADDRSZ - tp - Inet4.INADDRSZ);
          tp := tp + Inet4.INADDRSZ;
          img := Image(img.bytes + a, colonp);
          assert tmp[..] == img.bytes + Zeros(IN6ADDRSZ - tp);
          return true, tp, colonp;
        }
      }
      return false, tp, colonp;
    }
    if sawXdigit {
      if tp + INT16SZ > IN6ADDRSZ {
        return false, tp, colonp;
      }
      tmp[tp], tmp[tp + 1] := val / 256, val % 256;
      tp := tp + INT16SZ;
      img := Image(img.bytes + WordBytes(val), colonp);
    }
    assert tmp[..] == img.bytes + Zeros(IN6ADDRSZ - tp);
    return true, tp, colonp;
  }

  /** The shift by hand: the bytes from colonp to tp move to the end of tmp, back to
      front, and each place they leave is cleared. */
  method ShiftGap(tmp: array<byte>, colonp: nat, tp: nat)
    requires tmp.Length == IN6ADDRSZ && colonp <= tp <= IN6ADDRSZ
    requires forall k | tp <= k < IN6ADDRSZ :: tmp[k] == 0
    modifies tmp
    ensures Expand(Image(old(tmp[..tp]), Some(colonp))) == Some(tmp[..])
  {
    ghost var before := tmp[..];
    var n := tp - colonp;
    var i := 1;
    while i <= n
      invariant 1 <= i <= n + 1
      invariant forall k | 0 <= k < IN6ADDRSZ :: tmp[k] == ShiftedByte(before, colonp, tp, i - 1, k)
    {
      tmp[IN6ADDRSZ - i] := tmp[colonp + (n - i)];
      tmp[colonp + (n - i)] := 0;
      i := i + 1;
    }
    ShiftExpands(before, colonp, tp, tmp[..]);
    assert before[..tp] == old(tmp[..tp]);
  }

  /** The byte at k after the last moved bytes before tp have gone to the end. */
  ghost function ShiftedByte(before: seq<byte>, colonp: nat, tp: nat, moved: nat, k: nat): byte
    requires |before| == IN6ADDRSZ && colonp + moved <= tp <= IN6ADDRSZ && k < IN6ADDRSZ
  {
    if k < tp - moved then before[k]
    else if k < IN6ADDRSZ - moved || tp == IN6ADDRSZ then 0
    else before[k - (IN6ADDRSZ - tp)]
  }

  lemma ShiftExpands(before: seq<byte>, colonp: nat, tp: nat, after: seq<byte>)
    requires |before| == |after| == IN6ADDRSZ && colonp <= tp <= IN6ADDRSZ
    requires forall k | 0 <= k < IN6ADDRSZ :: after[k] == ShiftedByte(before, colonp, tp, tp - colonp, k)
    ensures Expand(Image(before[..tp], Some(colonp))) == Some(after)
  {
    var bytes := before[..tp];
    if tp == IN6ADDRSZ {
      assert after == bytes[..colonp] + Zeros(IN6ADDRSZ - colonp);
    } else {
      assert after == bytes[..colonp] + Zeros(IN6ADDRSZ - tp) + bytes[colonp..];
    }
  }

  /** inet_pton6: whether the text is accepted, and dst, which a refusal leaves alone. */
  method InetPton6(src: string, dst: array<byte>) returns (ok: bool)
    requires dst.Length >= IN6ADDRSZ
    modifies dst
    ensures ok <==> Address(src).Some?
    ensures ok ==> dst[..] == Address(src).value + old(dst[IN6ADDRSZ..])
    ensures !ok ==> dst[..] == old(dst[..])
  {
    var tmp := new byte[IN6ADDRSZ](_ => 0);
    var start := 0;
    if src != "" && src[0] == ':' {
      start := 1;
      if !(|src| > 1 && src[1] == ':') {
        return false;
      }
    }
    AddressByScan(src);
    var scanned, tp, colonp := ScanText(src[start..], tmp);
    if !scanned {
      return false;
    }
    assert colonp.Some? ==> tmp[..][..tp] == tmp[..tp];
    if colonp.Some? {
      ShiftGap(tmp, colonp.value, tp);
      tp := IN6ADDRSZ;
    }
    if tp != IN6ADDRSZ {
      return false;
    }
    Memcpy(dst, 0, tmp[..]);
    return true;
  }
}
