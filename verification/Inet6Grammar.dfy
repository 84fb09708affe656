/** The text forms of section 2.2 of RFC 4291, and exactly what inet_pton6 makes of
    them and of everything else. */
module Inet6Grammar {
  import opened Base
  import opened Text
  import opened Numerals
  import Inet4
  import opened Inet6Parse

  /** Eight groups, or groups on both sides of one "::". The last piece of the text
      can be a dotted quad. */
  datatype Form = Full(toks: seq<string>) | Gapped(left: seq<string>, right: seq<string>)

  predicate IsPiece(tok: string, last: bool) {
    IsGroup(tok) || (last && Inet4.Quad(tok).Some?)
  }

  predicate IsSide(toks: seq<string>, last: bool) {
    forall k | 0 <= k < |toks| :: IsPiece(toks[k], last && k == |toks| - 1)
  }

  function PieceBytes(tok: string): (b: seq<byte>)
    ensures |b| % 2 == 0
  {
    if IsGroup(tok) then WordBytes(HexValue(tok))
    else if Inet4.Quad(tok).Some? then Inet4.Quad(tok).value
    else []
  }

  function SideBytes(toks: seq<string>): (b: seq<byte>)
    ensures |b| % 2 == 0
  {
    if toks == [] then [] else SideBytes(toks[..|toks| - 1]) + PieceBytes(toks[|toks| - 1])
  }

  predicate Shaped(f: Form) {
    match f
    case Full(toks) => toks != [] && IsSide(toks, true)
    case Gapped(left, right) => IsSide(left, false) && IsSide(right, true)
  }

  /** How many of the 16 bytes the text spells out. */
  function Spelled(f: Form): nat {
    match f
    case Full(toks) => |SideBytes(toks)|
    case Gapped(left, right) => |SideBytes(left)| + |SideBytes(right)|
  }

  /** A valid form: all 16 bytes, or a "::" that stands for at least one group. */
  predicate Valid(f: Form) {
    Shaped(f) && if f.Full? then Spelled(f) == IN6ADDRSZ else Spelled(f) <= IN6ADDRSZ - INT16SZ
  }

  function Render(f: Form): string {
    match f
    case Full(toks) => Join(toks, ':')
    case Gapped(left, right) => Join(left, ':') + "::" + Join(right, ':')
  }

  /** The address a valid form defines. */
  function Value(f: Form): (a: seq<byte>)
    requires Valid(f)
    ensures |a| == IN6ADDRSZ
  {
    match f
    case Full(toks) => SideBytes(toks)
    case Gapped(left, right) =>
      SideBytes(left) + Zeros(IN6ADDRSZ - Spelled(f)) + SideBytes(right)
  }

  // ------------------------------------------- forms as token lists

  ghost function Image6(f: Form): Image {
    match f
    case Full(toks) => Image(SideBytes(toks), None)
    case Gapped(left, right) => Image(SideBytes(left) + SideBytes(right), Some(|SideBytes(left)|))
  }

  /** The tokens the parser cuts a form's text into, after the leading colon of "::";
      with trailing, the text has one more colon after its last group. */
  ghost function FormTokens(f: Form, trailing: bool): seq<string> {
    var toks := match f
      case Full(toks) => toks
      case Gapped(left, right) => left + [""] + (if right == [] then [""] else right);
    if trailing then toks + [""] else toks
  }

  /** A single colon can trail only a group. */
  ghost predicate MayTrail(f: Form) {
    var toks := if f.Full? then f.toks else f.right;
    toks != [] && IsGroup(toks[|toks| - 1])
  }

  ghost function FormText(f: Form, trailing: bool): string {
    if trailing then Render(f) + ":" else Render(f)
  }

  lemma {:induction false} ColonTokensOfSide(toks: seq<string>)
    requires IsSide(toks, false)
    ensures ColonTokens(toks) ==
            if |SideBytes(toks)| <= IN6ADDRSZ then Some(Image(SideBytes(toks), None)) else None
  {
    if toks != [] {
      ColonTokensOfSide(toks[..|toks| - 1]);
    }
  }

  lemma {:induction false} ColonTokensOfGap(left: seq<string>, right: seq<string>)
    requires IsSide(left, false) && IsSide(right, false)
    ensures ColonTokens(left + [""] + right) ==
            if |SideBytes(left) + SideBytes(right)| <= IN6ADDRSZ
            then Some(Image(SideBytes(left) + SideBytes(right), Some(|SideBytes(left)|))) else None
    decreases |right|
  {
    hide ColonTokens, SideBytes, IsGroup, PieceBytes;
    if right == [] {
      ColonTokensOfSide(left);
      GapAfterSide(left);
      assert left + [""] + right == left + [""];
    } else {
      var r, last := right[..|right| - 1], right[|right| - 1];
      assert left + [""] + right == (left + [""] + r) + [last];
      assert IsPiece(last, false);
      ColonTokensOfGap(left, r);
      ColonTokensSnoc(left + [""] + r, last);
      GroupToken(last);
      SideBytesAssociate(left, right);
    }
  }

  lemma ColonTokensSnoc(toks: seq<string>, tok: string)
    ensures ColonTokens(toks + [tok]) ==
            if ColonTokens(toks).None? then None else ColonToken(ColonTokens(toks).value, tok)
  {
    assert (toks + [tok])[..|toks|] == toks;
  }

  lemma GroupToken(tok: string)
    requires IsPiece(tok, false)
    ensures |PieceBytes(tok)| == INT16SZ
    ensures forall img :: ColonToken(img, tok) == Append(img, PieceBytes(tok))
  {
  }

  lemma GapAfterSide(left: seq<string>)
    ensures ColonTokens(left).Some? && ColonTokens(left).value.gap.None? ==>
              var bytes := ColonTokens(left).value.bytes;
              ColonTokens(left + [""]) == Some(Image(bytes, Some(|bytes|)))
    ensures ColonTokens(left).None? ==> ColonTokens(left + [""]).None?
    ensures SideBytes(left) + SideBytes([]) == SideBytes(left)
  {
    ColonTokensSnoc(left, "");
  }

  lemma ImageOfTokens(f: Form, trailing: bool)
    requires Shaped(f) && (trailing ==> MayTrail(f))
    ensures AllTokens(FormTokens(f, trailing)) ==
            if Spelled(f) <= IN6ADDRSZ then Some(Image6(f)) else None
  {
    match f
    case Full(side) => ImageOfFull(side, trailing);
    case Gapped(left, right) => ImageOfGap(left, right, trailing);
  }

  lemma ImageOfFull(side: seq<string>, trailing: bool)
    requires Shaped(Full(side)) && (trailing ==> MayTrail(Full(side)))
    ensures AllTokens(FormTokens(Full(side), trailing)) ==
            if |SideBytes(side)| <= IN6ADDRSZ then Some(Image(SideBytes(side), None)) else None
  {
    var toks := FormTokens(Full(side), trailing);
    var c := toks[..|toks| - 1];
    if trailing {
      assert c == side;
    }
    ColonTokensOfSide(c);
  }

  lemma ImageOfGap(left: seq<string>, right: seq<string>, trailing: bool)
    requires Shaped(Gapped(left, right)) && (trailing ==> MayTrail(Gapped(left, right)))
    ensures AllTokens(FormTokens(Gapped(left, right), trailing)) ==
            if |SideBytes(left) + SideBytes(right)| <= IN6ADDRSZ
            then Some(Image6(Gapped(left, right))) else None
  {
    var toks := FormTokens(Gapped(left, right), trailing);
    var c := toks[..|toks| - 1];
    if right == [] || trailing {
      assert c == left + [""] + right && toks == c + [""];
      ColonTokensOfGap(left, right);
    } else {
      var r, last := right[..|right| - 1], right[|right| - 1];
      assert c == left + [""] + r && toks == c + [last];
      ColonTokensOfGap(left, r);
      SideBytesAssociate(left, right);
      LastPiece(last);
    }
  }

  lemma LastPiece(tok: string)
    requires IsPiece(tok, true)
    ensures tok != ""
    ensures forall img :: LastToken(img, tok) == Append(img, PieceBytes(tok))
  {
    if Inet4.Quad(tok).Some? {
      assert tok == "" ==> Split(tok, '.') == [""];
    }
  }

  lemma SideBytesAssociate(left: seq<string>, right: seq<string>)
    requires right != []
    ensures SideBytes(left) + SideBytes(right)
            == (SideBytes(left) + SideBytes(right[..|right| - 1])) + PieceBytes(right[|right| - 1])
  {
    hide PieceBytes;
    Associate(SideBytes(left), SideBytes(right[..|right| - 1]), PieceBytes(right[|right| - 1]));
  }

  /** A token list the parser gets through before its last colon is groups with at most one gap. */
  lemma {:induction false} ColonTokensShape(c: seq<string>) returns (left: seq<string>, right: seq<string>)
    requires ColonTokens(c).Some?
    ensures ColonTokens(c).value.gap.None? ==> IsSide(c, false)
    ensures ColonTokens(c).value.gap.Some? ==>
              IsSide(left, false) && IsSide(right, false) && c == left + [""] + right
  {
    left, right := [], [];
    if c != [] {
      var d, tok := c[..|c| - 1], c[|c| - 1];
      left, right := ColonTokensShape(d);
      if tok == "" {
        left, right := d, [];
      } else if ColonTokens(c).value.gap.Some? {
        assert c == left + [""] + (right + [tok]);
        right := right + [tok];
      } else {
        assert c == d + [tok];
      }
    }
  }

  /** Every accepted token list but that of the empty text comes from a form. */
  lemma FormOfTokens(toks: seq<string>) returns (f: Form, trailing: bool)
    requires |toks| >= 1 && AllTokens(toks).Some? && toks != [""]
    ensures Shaped(f) && (trailing ==> MayTrail(f)) && FormTokens(f, trailing) == toks
  {
    hide SideBytes, WordBytes, PieceBytes, Inet4.Quad;
    var c, last := toks[..|toks| - 1], toks[|toks| - 1];
    var left, right := ColonTokensShape(c);
    if ColonTokens(c).value.gap.None? {
      trailing := last == "";
      f := Full(if trailing then c else c + [last]);
    } else {
      trailing := last == "" && right != [];
      f := Gapped(left, if last == "" then right else right + [last]);
      assert toks == c + [last];
      assert left + [""] + (right + [last]) == toks;
      assert right == [] ==> left + [""] + [""] == c + [""];
    }
  }

  // ------------------------------------------- forms as text

  lemma PieceStart(tok: string, last: bool)
    requires IsPiece(tok, last)
    ensures tok != "" && ':' !in tok && tok[0] != ':'
  {
    if Inet4.Quad(tok).Some? {
      Inet4.QuadCharset(tok);
      assert tok == "" ==> Split(tok, '.') == [""];
    }
  }

  lemma {:induction false} SideFree(toks: seq<string>, last: bool)
    requires IsSide(toks, last)
    ensures Free(toks, ':')
    ensures toks != [] ==> Join(toks, ':') != "" && Join(toks, ':')[0] != ':'
    decreases |toks|
  {
    forall k | 0 <= k < |toks|
      ensures ':' !in toks[k] && toks[k] != "" && toks[k][0] != ':'
    {
      PieceStart(toks[k], last && k == |toks| - 1);
    }
    if |toks| > 1 {
      var c := toks[..|toks| - 1];
      assert forall k | 0 <= k < |c| :: IsPiece(c[k], false);
      SideFree(c, false);
    }
  }

  /** What the parser sees of a form's text. */
  lemma TokensOfForm(f: Form)
    requires Shaped(f)
    ensures var s := Render(f);
            && s != "" && (s[0] == ':' ==> |s| > 1 && s[1] == ':')
            && Split(s[Lead(s)..], ':') == FormTokens(f, false)
  {
    match f
    case Full(toks) =>
      SideFree(toks, true);
      SplitJoin(toks, ':');
      assert Render(f)[0..] == Render(f);
    case Gapped(left, right) =>
      SideFree(left, false);
      TokensOfRight(right);
      if left == [] {
        assert Render(f)[1..] == ":" + Join(right, ':');
        assert left + [""] == [""];
      } else {
        TokensOfGap(left, right);
      }
  }

  lemma TokensOfRight(right: seq<string>)
    requires IsSide(right, true)
    ensures Split(":" + Join(right, ':'), ':') == [""] + (if right == [] then [""] else right)
  {
    var r := Join(right, ':');
    if right != [] {
      SideFree(right, true);
      SplitJoin(right, ':');
    }
    SplitAppend("", r, ':');
    assert "" + ":" + r == ":" + r;
    assert Split("", ':') == [""];
  }

  lemma TokensOfGap(left: seq<string>, right: seq<string>)
    requires Shaped(Gapped(left, right)) && left != []
    ensures var s := Render(Gapped(left, right));
            s != "" && s[0] != ':' && Split(s[Lead(s)..], ':') == FormTokens(Gapped(left, right), false)
  {
    var s, l, tail := Render(Gapped(left, right)), Join(left, ':'), ":" + Join(right, ':');
    SideFree(left, false);
    TokensOfRight(right);
    SplitJoin(left, ':');
    SplitAppend(l, tail, ':');
    assert s == l + ":" + tail;
    assert s[0..] == s && s[0] == l[0];
  }

  lemma TokensOfText(f: Form, trailing: bool)
    requires Shaped(f)
    ensures var s := FormText(f, trailing);
            && s != "" && (s[0] == ':' ==> |s| > 1 && s[1] == ':')
            && Split(s[Lead(s)..], ':') == FormTokens(f, trailing)
  {
    TokensOfForm(f);
    var s := Render(f);
    if trailing {
      var k := Lead(s);
      assert (s + ":")[k..] == s[k..] + ":" + "";
      SplitAppend(s[k..], "", ':');
    }
  }

  /** A text cut into the tokens of a form is that form's text. */
  lemma TextOfTokens(s: string, f: Form, trailing: bool)
    requires Shaped(f) && s != "" && (s[0] == ':' ==> |s| > 1 && s[1] == ':')
    requires Split(s[Lead(s)..], ':') == FormTokens(f, trailing)
    ensures s == FormText(f, trailing)
  {
    hide Render, FormTokens, Shaped;
    var t := FormText(f, trailing);
    TokensOfText(f, trailing);
    JoinSplit(s[Lead(s)..], ':');
    JoinSplit(t[Lead(t)..], ':');
    var rest := Join(FormTokens(f, trailing), ':');
    assert s[Lead(s)..] == rest == t[Lead(t)..];
    assert s == s[..Lead(s)] + rest && t == t[..Lead(t)] + rest;
    // the skipped colon shows in the text itself: the rest begins with a colon exactly then
    assert Lead(s) == 1 <==> rest != "" && rest[0] == ':';
    assert Lead(t) == 1 <==> rest != "" && rest[0] == ':';
  }

  // ------------------------------------------- the theorems

  /** Every valid form of RFC 4291 is accepted, in either letter case, with its value. */
  lemma ValidFormsAreAccepted(f: Form)
    requires Valid(f)
    ensures Address(Render(f)) == Some(Value(f))
  {
    hide SideBytes, Split, AllTokens, Render, FormTokens, IsSide, Image6, Expand, Value;
    TokensOfForm(f);
    ImageOfTokens(f, false);
    ExpandImage(f);
  }

  /** What the parser makes of the text of a form, with or without a trailing colon. */
  ghost function Reading(f: Form): Option<seq<byte>> {
    if Valid(f) then Some(Value(f))
    else if f.Gapped? && Spelled(f) == IN6ADDRSZ then
      Some(SideBytes(f.left) + Zeros(IN6ADDRSZ - |SideBytes(f.left)|))
    else None
  }

  /** The exact language of inet_pton6: the texts of the forms that spell at most 16
      bytes, all of them without a gap, and these texts with one colon after a last group. */
  lemma AcceptedLanguage(s: string, a: seq<byte>)
    ensures Address(s) == Some(a) <==>
            exists f, trailing :: Shaped(f) && (trailing ==> MayTrail(f))
                                  && s == FormText(f, trailing) && Reading(f) == Some(a)
  {
    if Address(s) == Some(a) {
      var f, trailing := FormOfAddress(s);
    }
    if f, trailing :| Shaped(f) && (trailing ==> MayTrail(f))
                      && s == FormText(f, trailing) && Reading(f) == Some(a) {
      AddressOfForm(f, trailing);
    }
  }

  lemma AddressOfForm(f: Form, trailing: bool)
    requires Shaped(f) && (trailing ==> MayTrail(f))
    ensures Address(FormText(f, trailing)) == Reading(f)
  {
    TokensOfText(f, trailing);
    ImageOfTokens(f, trailing);
    if Spelled(f) <= IN6ADDRSZ {
      ExpandImage(f);
    }
  }

  lemma ExpandImage(f: Form)
    requires Shaped(f) && Spelled(f) <= IN6ADDRSZ
    ensures Expand(Image6(f)) == Reading(f)
  {
    hide SideBytes, IsSide;
    if f.Gapped? {
      var l, r := SideBytes(f.left), SideBytes(f.right);
      assert (l + r)[..|l|] == l && (l + r)[|l|..] == r;
    }
  }

  lemma FormOfAddress(s: string) returns (f: Form, trailing: bool)
    requires Address(s).Some?
    ensures Shaped(f) && (trailing ==> MayTrail(f)) && s == FormText(f, trailing)
    ensures Split(s[Lead(s)..], ':') == FormTokens(f, trailing)
    ensures Reading(f) == Address(s)
  {
    var toks := Split(s[Lead(s)..], ':');
    f, trailing := FormOfTokens(toks);
    TextOfTokens(s, f, trailing);
    AddressOfForm(f, trailing);
  }

  /** Section 2.2 of RFC 4291 also limits a group to four digits, and an octet of a dotted quad
      takes three. */
  ghost predicate Rfc4291(f: Form) {
    Valid(f) && ShortGroups(FormTokens(f, false))
  }

  ghost predicate ShortGroups(toks: seq<string>) {
    forall k | 0 <= k < |toks| :: ShortPiece(toks[k])
  }

  ghost predicate ShortPiece(tok: string) {
    if IsHexDigits(tok) then |tok| <= 4 else ShortOctets(Split(tok, '.'))
  }

  ghost predicate ShortOctets(parts: seq<string>) {
    forall k | 0 <= k < |parts| :: |parts[k]| <= 3
  }

  /** What a caller can check of a text to know that the parser and the RFC agree on it:
      a colon at its end is part of a "::", a "::" leaves bytes to fill, no group or octet is long. */
  ghost predicate Conforms(s: string) {
    var toks := Split(s[Lead(s)..], ':');
    var img := AllTokens(toks);
    && (toks[|toks| - 1] == "" ==> |toks| >= 2 && toks[|toks| - 2] == "")
    && (img.Some? && img.value.gap.Some? ==> |img.value.bytes| < IN6ADDRSZ)
    && ShortGroups(toks)
  }

  /** An accepted text is a form of the RFC with the address the RFC gives it exactly
      when it conforms. */
  lemma AgreesWithRfc(s: string)
    requires Address(s).Some?
    ensures (exists f :: Rfc4291(f) && s == Render(f) && Address(s) == Some(Value(f))) <==> Conforms(s)
  {
    if Conforms(s) {
      var f, trailing := FormOfAddress(s);
      ImageOfTokens(f, trailing);
      NotTrailing(s, f, trailing);
      SpelledLess(f);
      assert Rfc4291(f) && s == Render(f) && Address(s) == Some(Value(f));
    }
    if f :| Rfc4291(f) && s == Render(f) && Address(s) == Some(Value(f)) {
      TokensOfForm(f);
      ImageOfTokens(f, false);
      LastTokenOfForm(f);
    }
  }

  /** Two texts on which they differ: a lone colon at the end is accepted, and a "::" in a full
      address wipes out what follows it. */
  lemma DiffersFromRfc()
    ensures Address("::1:") == Some(Zeros(14) + [0, 1]) && !Conforms("::1:")
    ensures Address("::1:1:1:1:1:1:1:1") == Some(Zeros(16)) && !Conforms("::1:1:1:1:1:1:1:1")
  {
    LoneColon();
    FullGap();
  }

  lemma LoneColon()
    ensures Address("::1:") == Some(Zeros(14) + [0, 1]) && !Conforms("::1:")
  {
    hide Address, Split, AllTokens, IsGroup, HexValue;
    var s, f := "::1:", Gapped([], ["1"]);
    OneIsGroup();
    assert ["1"][..0] == [];
    assert SideBytes(["1"]) == [] + [0, 1];
    assert Shaped(f) && Valid(f) && Value(f) == Zeros(14) + [0, 1];
    assert FormText(f, true) == s;
    TokensOfText(f, true);
    AddressOfForm(f, true);
  }

  lemma OneIsGroup()
    ensures IsGroup("1") && HexValue("1") == 1 && WordBytes(1) == [0, 1] && ':' !in "1"
  {
    assert "1"[..0] == "" && HexValue("") == 0 && HexVal('1') == 1;
  }

  lemma FullGap()
    ensures Address("::1:1:1:1:1:1:1:1") == Some(Zeros(16)) && !Conforms("::1:1:1:1:1:1:1:1")
  {
    hide Address, Split, AllTokens, Shaped, Render, FormText, FormTokens;
    var f := Gapped([], Ones(8));
    FullForm();
    TokensOfText(f, false);
    ImageOfTokens(f, false);
    AddressOfForm(f, false);
  }

  lemma FullForm()
    ensures var f := Gapped([], Ones(8));
            && Shaped(f) && FormText(f, false) == "::1:1:1:1:1:1:1:1" && Spelled(f) == 16
            && Reading(f) == Some(Zeros(16))
  {
    hide IsGroup, HexValue;
    OnesAreGroups(8);
    JoinOnes();
    assert [] + Zeros(16) == Zeros(16);
  }

  ghost function Ones(n: nat): (toks: seq<string>)
    ensures |toks| == n
  {
    seq(n, _ => "1")
  }

  lemma {:induction false} OnesAreGroups(n: nat)
    ensures IsSide(Ones(n), false) && IsSide(Ones(n), true) && |SideBytes(Ones(n))| == 2 * n
  {
    OneIsGroup();
    if n > 0 {
      OnesAreGroups(n - 1);
      assert Ones(n)[..n - 1] == Ones(n - 1);
    }
  }

  lemma JoinOnes()
    ensures Join(Ones(8), ':') == "1:1:1:1:1:1:1:1"
  {
    JoinOne(1);
    JoinOne(2);
    JoinOne(3);
    JoinOne(4);
    JoinOne(5);
    JoinOne(6);
    JoinOne(7);
    assert Join(Ones(1), ':') == "1";
    assert Join(Ones(2), ':') == "1:1" && Join(Ones(3), ':') == "1:1:1";
    assert Join(Ones(4), ':') == "1:1:1:1" && Join(Ones(5), ':') == "1:1:1:1:1";
  }

  lemma JoinOne(n: nat)
    requires n > 0
    ensures Join(Ones(n + 1), ':') == Join(Ones(n), ':') + ":" + "1"
    ensures n == 1 ==> Join(Ones(1), ':') == "1"
  {
    assert Ones(n + 1)[..n] == Ones(n);
  }

  lemma SpelledLess(f: Form)
    requires Shaped(f) && Reading(f).Some? && (f.Gapped? ==> Spelled(f) < IN6ADDRSZ)
    ensures Valid(f)
  {
  }

  lemma NotTrailing(s: string, f: Form, trailing: bool)
    requires Conforms(s) && Shaped(f) && (trailing ==> MayTrail(f))
    requires Split(s[Lead(s)..], ':') == FormTokens(f, trailing)
    ensures !trailing
  {
    if trailing {
      TrailingShows(f);
    }
  }

  lemma TrailingShows(f: Form)
    requires Shaped(f) && MayTrail(f)
    ensures var toks := FormTokens(f, true);
            |toks| >= 2 && toks[|toks| - 1] == "" && toks[|toks| - 2] != ""
  {
    var toks := FormTokens(f, false);
    var side := if f.Full? then f.toks else f.right;
    assert toks[|toks| - 1] == side[|side| - 1];
    assert FormTokens(f, true) == toks + [""];
  }

  lemma LastTokenOfForm(f: Form)
    requires Shaped(f)
    ensures var toks := FormTokens(f, false);
            && |toks| >= 1
            && (toks[|toks| - 1] == "" ==> |toks| >= 2 && toks[|toks| - 2] == "")
  {
    var toks := FormTokens(f, false);
    var side := if f.Full? then f.toks else f.right;
    if side != [] {
      assert toks[|toks| - 1] == side[|side| - 1];
      LastPiece(side[|side| - 1]);
    }
  }

  // ------------------------------------------- what the bytes are

  ghost predicate AllGroups(toks: seq<string>) {
    forall k | 0 <= k < |toks| :: IsGroup(toks[k])
  }

  /** Bytes are the values of groups from index at on, high byte first. */
  ghost predicate WordsAt(a: seq<byte>, at: nat, toks: seq<string>)
    requires AllGroups(toks)
  {
    && at + 2 * |toks| <= |a|
    && forall k | 0 <= k < |toks| ::
         a[at + 2 * k] == HexValue(toks[k]) / 256 && a[at + 2 * k + 1] == HexValue(toks[k]) % 256
  }

  lemma {:induction false} SideWords(toks: seq<string>)
    requires AllGroups(toks)
    ensures IsSide(toks, false) && IsSide(toks, true)
    ensures |SideBytes(toks)| == 2 * |toks| && WordsAt(SideBytes(toks), 0, toks)
  {
    hide PieceBytes, HexValue;
    if toks != [] {
      var front, last := toks[..|toks| - 1], toks[|toks| - 1];
      SideWords(front);
      WordOf(last);
      WordsSnoc(SideBytes(front), PieceBytes(last), front, last);
      assert toks == front + [last];
    }
  }

  lemma WordsSnoc(a: seq<byte>, b: seq<byte>, toks: seq<string>, tok: string)
    requires AllGroups(toks) && IsGroup(tok) && |a| == 2 * |toks| && WordsAt(a, 0, toks)
    requires b == [HexValue(tok) / 256, HexValue(tok) % 256]
    ensures WordsAt(a + b, 0, toks + [tok])
  {
    hide HexValue;
    var c, all := a + b, toks + [tok];
    forall k | 0 <= k < |all|
      ensures c[0 + 2 * k] == HexValue(all[k]) / 256 && c[0 + 2 * k + 1] == HexValue(all[k]) % 256
    {
      if k < |toks| {
        assert a[0 + 2 * k] == HexValue(toks[k]) / 256;
      }
    }
  }

  lemma WordOf(tok: string)
    requires IsGroup(tok)
    ensures PieceBytes(tok) == [HexValue(tok) / 256, HexValue(tok) % 256]
  {
  }

  /** Eight groups are the eight words of the address in order. */
  lemma EightGroups(toks: seq<string>)
    requires AllGroups(toks) && |toks| == 8
    ensures Address(Join(toks, ':')).Some? && WordsAt(Address(Join(toks, ':')).value, 0, toks)
  {
    hide SideBytes, Address, IsGroup, Join, IsSide;
    SideWords(toks);
    ValidFormsAreAccepted(Full(toks));
  }

  /** With "::" the groups before it are the first words, the groups after it the last, and
      what is between them is zero. */
  lemma GroupsAroundGap(left: seq<string>, right: seq<string>)
    requires AllGroups(left) && AllGroups(right) && |left| + |right| <= 7
    ensures var a := Address(Join(left, ':') + "::" + Join(right, ':'));
            && a.Some? && WordsAt(a.value, 0, left) && WordsAt(a.value, 16 - 2 * |right|, right)
            && forall k | 2 * |left| <= k < 16 - 2 * |right| :: a.value[k] == 0
  {
    hide SideBytes, Address, IsGroup, Join, IsSide, HexValue;
    SideWords(left);
    SideWords(right);
    var f := Gapped(left, right);
    ValidFormsAreAccepted(f);
    GapWords(SideBytes(left), SideBytes(right), left, right, Value(f));
  }

  lemma GapWords(l: seq<byte>, r: seq<byte>, left: seq<string>, right: seq<string>, a: seq<byte>)
    requires AllGroups(left) && AllGroups(right) && |l| == 2 * |left| && |r| == 2 * |right| && |l| + |r| <= 16
    requires WordsAt(l, 0, left) && WordsAt(r, 0, right) && a == l + Zeros(16 - |l| - |r|) + r
    ensures WordsAt(a, 0, left) && WordsAt(a, 16 - 2 * |right|, right)
    ensures forall k | 2 * |left| <= k < 16 - 2 * |right| :: a[k] == 0
  {
    WordsMoved(l, 0, left, a, 0);
    WordsMoved(r, 0, right, a, 16 - 2 * |right|);
  }

  lemma WordsMoved(a: seq<byte>, at: nat, toks: seq<string>, b: seq<byte>, to: nat)
    requires AllGroups(toks) && WordsAt(a, at, toks) && to + 2 * |toks| <= |b|
    requires a[at..at + 2 * |toks|] == b[to..to + 2 * |toks|]
    ensures WordsAt(b, to, toks)
  {
    hide HexValue;
    forall k | 0 <= k < |toks|
      ensures b[to + 2 * k] == HexValue(toks[k]) / 256 && b[to + 2 * k + 1] == HexValue(toks[k]) % 256
    {
      var c, d := a[at..at + 2 * |toks|], b[to..to + 2 * |toks|];
      assert c[2 * k] == d[2 * k] && c[2 * k + 1] == d[2 * k + 1];
      assert a[at + 2 * k] == HexValue(toks[k]) / 256;
    }
  }

  /** A dotted quad at the end gives the last four bytes, with or without groups before it. */
  lemma QuadAtTheEnd(left: seq<string>, quad: string)
    requires AllGroups(left) && |left| <= 5 && Inet4.Quad(quad).Some?
    ensures var a := Address(Join(left, ':') + "::" + quad);
            && a.Some? && WordsAt(a.value, 0, left) && a.value[12..] == Inet4.Quad(quad).value
            && forall k | 2 * |left| <= k < 12 :: a.value[k] == 0
  {
    hide SideBytes, Address, IsGroup, IsSide, HexValue, Inet4.Quad, WordsAt;
    SideWords(left);
    LoneQuad(quad);
    assert Join([quad], ':') == quad;
    var f := Gapped(left, [quad]);
    ValidFormsAreAccepted(f);
    var l, a := SideBytes(left), Value(f);
    assert a == l + Zeros(12 - |l|) + SideBytes([quad]);
    WordsMoved(l, 0, left, a, 0);
  }

  lemma LoneQuad(quad: string)
    requires Inet4.Quad(quad).Some?
    ensures IsSide([quad], true) && SideBytes([quad]) == Inet4.Quad(quad).value && |SideBytes([quad])| == 4
  {
    assert [quad][..0] == [];
    assert SideBytes([]) == [];
    if IsGroup(quad) {
      SplitFree(quad, '.');
    }
  }

  /** A "::" in a text of eight groups clears the groups after it. */
  lemma FullGapClears(left: seq<string>, right: seq<string>)
    requires AllGroups(left) && AllGroups(right) && |left| + |right| == 8
    ensures var a := Address(Join(left, ':') + "::" + Join(right, ':'));
            && a.Some? && WordsAt(a.value, 0, left)
            && forall k | 2 * |left| <= k < 16 :: a.value[k] == 0
  {
    hide SideBytes, Address, IsGroup, Join, IsSide, HexValue, WordsAt;
    SideWords(left);
    SideWords(right);
    var f := Gapped(left, right);
    AddressOfForm(f, false);
    var l := SideBytes(left);
    WordsMoved(l, 0, left, l + Zeros(16 - |l|), 0);
  }

  /** One colon after a last group changes nothing. */
  lemma TrailingColon(s: string)
    requires Address(s).Some?
    ensures var toks := Split(s, ':');
            var last := toks[|toks| - 1];
            last != "" && IsHexDigits(last) ==> Address(s + ":") == Address(s)
  {
    hide Address, Split, IsHexDigits, HexValue, Reading;
    var f, trailing := FormOfAddress(s);
    SkippedColon(s);
    var toks := FormTokens(f, trailing);
    var last := toks[|toks| - 1];
    if last != "" && IsHexDigits(last) {
      LastIsGroup(f, trailing);
      AddressOfForm(f, true);
    }
  }

  lemma SkippedColon(s: string)
    ensures var rest := Split(s[Lead(s)..], ':');
            Split(s, ':') == if Lead(s) == 1 then [""] + rest else rest
  {
    if Lead(s) == 1 {
      SplitAppend("", s[1..], ':');
      assert s == "" + ":" + s[1..];
      assert Split("", ':') == [""];
    } else {
      assert s[0..] == s;
    }
  }

  lemma LastIsGroup(f: Form, trailing: bool)
    requires Shaped(f)
    ensures var toks := FormTokens(f, trailing);
            |toks| >= 1 && (toks[|toks| - 1] != "" && IsHexDigits(toks[|toks| - 1]) ==> !trailing && MayTrail(f))
  {
    var toks := FormTokens(f, trailing);
    var side := if f.Full? then f.toks else f.right;
    if side != [] && !trailing {
      assert toks[|toks| - 1] == side[|side| - 1];
      assert IsPiece(side[|side| - 1], true);
      QuadIsNotHex(side[|side| - 1]);
    }
  }

  lemma QuadIsNotHex(tok: string)
    ensures Inet4.Quad(tok).Some? ==> !IsHexDigits(tok)
  {
    if Inet4.Quad(tok).Some? && IsHexDigits(tok) {
      SplitFree(tok, '.');
    }
  }

  /** Nothing else is accepted: between the colons are groups of value at most 0xffff, a dotted
      quad only at the end, and inside the text nothing at most once. */
  lemma AcceptedPieces(s: string)
    requires Address(s).Some?
    ensures var toks := Split(s, ':');
            && (forall k | 0 <= k < |toks| ::
                  || toks[k] == "" || (IsHexDigits(toks[k]) && HexValue(toks[k]) <= 0xffff)
                  || (k == |toks| - 1 && Inet4.Quad(toks[k]).Some?))
            && (forall j, k | 0 < j < k < |toks| - 1 :: toks[j] != "" || toks[k] != "")
  {
    hide Address, Split, IsHexDigits, HexValue, Reading, Inet4.Quad;
    var f, trailing := FormOfAddress(s);
    SkippedColon(s);
    FormPieces(f, trailing);
  }

  lemma FormPieces(f: Form, trailing: bool)
    requires Shaped(f) && (trailing ==> MayTrail(f))
    ensures var toks := FormTokens(f, trailing);
            && (forall k | 0 <= k < |toks| :: toks[k] == "" || IsPiece(toks[k], k == |toks| - 1))
            && (forall j, k | 0 <= j < k < |toks| - 1 :: toks[j] != "" || toks[k] != "")
  {
  }
}
