/** Which set a text in comma-separated groups shows, bit by bit, and that both the printer and the parser of
    BitmapHex take it so. */
module HexMeaning {
  import opened Words
  import opened WordNumbers
  import opened Numerals
  import opened TextMeaning
  import opened BitSets
  import opened BitmapHex

  // ----- What a text shows.

  /** Where the first comma is, or the end. */
  function FirstComma(text: string): (i: nat)
    ensures i <= |text| && (i < |text| ==> text[i] == ',')
    ensures forall j :: 0 <= j < i ==> text[j] != ','
  {
    if text == "" || text[0] == ',' then 0 else 1 + FirstComma(text[1..])
  }

  /** The parts between commas. */
  function Pieces(text: string): (ps: seq<string>)
    ensures ps != []
    decreases |text|
  {
    var i := FirstComma(text);
    if i == |text| then [text] else [text[..i]] + Pieces(text[i + 1..])
  }

  predicate IsInfinite(text: string) {
    "0xf...f" <= text
  }

  /** The groups, from the top. */
  function GroupsIn(text: string): seq<string> {
    if !IsInfinite(text) then Pieces(text) else if |text| <= 8 then [] else Pieces(text[8..])
  }

  /** 0x and one to eight digits, or nothing. */
  ghost predicate IsGroup(g: string) {
    g == "" || (3 <= |g| <= 10 && "0x" <= g && IsHex(g[2..]))
  }

  /** Bit i of a group; a group left empty is zero. */
  ghost predicate GroupBit(g: string, i: nat) {
    |g| > 2 && HexBit(g[2..], i)
  }

  /** Index i: 32 to a group from the right. Above the groups, all are in an infinite set but those that complete
      a pair of groups. */
  ghost predicate Shows(text: string, i: nat) {
    var gs := GroupsIn(text);
    if i / 32 < |gs| then GroupBit(gs[|gs| - 1 - i / 32], i % 32)
    else IsInfinite(text) && i / 32 >= |gs| + |gs| % 2
  }

  ghost predicate GoodGroups(gs: seq<string>) {
    (forall j :: 0 <= j < |gs| ==> IsGroup(gs[j])) && (gs != [] ==> gs[|gs| - 1] != "")
  }

  /** Texts with a meaning: groups as above, the first not empty unless the infinite prefix precedes it, the last
      never. */
  ghost predicate IsHexText(text: string) {
    && GoodGroups(GroupsIn(text))
    && if IsInfinite(text) then |text| == 7 || (|text| > 8 && text[7] == ',') else GroupsIn(text)[0] != ""
  }

  // ----- Parsing.

  ghost predicate SameBits(val: nat, g: string) {
    forall i: nat :: Bit(val, i) <==> GroupBit(g, i)
  }

  ghost predicate ReadsOne(strtoul: Reader, g: string, tail: string) {
    var (val, n) := strtoul(g + tail); n == |g| && SameBits(val, g)
  }

  /** What is asked of strtoul: a group in front of a comma or the end is read as the number it shows. */
  ghost predicate ReadsAnyGroup(strtoul: Reader) {
    forall g: string, tail: string :: IsGroup(g) && (if tail == "" then g != "" else tail[0] == ',') ==>
                                        ReadsOne(strtoul, g, tail)
  }

  lemma {:induction false} CommasArePieces(text: string)
    ensures Commas(text) + 1 == |Pieces(text)|
    decreases |text|
  {
    var i := FirstComma(text);
    NoCommasBefore(text, i);
    if i < |text| {
      CommasArePieces(text[i + 1..]);
    }
  }

  lemma {:induction false} NoCommasBefore(text: string, i: nat)
    requires i <= |text| && (i < |text| ==> text[i] == ',') && forall j :: 0 <= j < i ==> text[j] != ','
    ensures Commas(text) == if i < |text| then 1 + Commas(text[i + 1..]) else 0
  {
    if i > 0 {
      NoCommasBefore(text[1..], i - 1);
      assert i < |text| ==> text[1..][i..] == text[i + 1..];
    }
  }

  /** The values and the groups they come from. */
  ghost predicate AllSame(vals: seq<nat>, gs: seq<string>) {
    |vals| == |gs| && forall j :: 0 <= j < |gs| ==> SameBits(vals[j], gs[j])
  }

  lemma PiecesCases(text: string, i: nat)
    requires i == FirstComma(text)
    ensures i < |text| ==> Pieces(text) == [text[..i]] + Pieces(text[i + 1..])
    ensures i == |text| ==> Pieces(text) == [text[..i]]
  {
    assert text[..|text|] == text;
  }

  lemma HeadIsGood(gs: seq<string>)
    requires GoodGroups(gs) && gs != []
    ensures IsGroup(gs[0]) && (|gs| == 1 ==> gs[0] != "")
  {
  }

  lemma SplitAt(text: string, i: nat)
    requires i <= |text|
    ensures text == text[..i] + text[i..]
  {
  }

  lemma OneRead(strtoul: Reader, g: string, tail: string)
    requires ReadsAnyGroup(strtoul) && IsGroup(g) && (if tail == "" then g != "" else tail[0] == ',')
    ensures strtoul(g + tail).1 == |g| && SameBits(strtoul(g + tail).0, g)
  {
    assert ReadsOne(strtoul, g, tail);
  }

  lemma FirstGroupRead(strtoul: Reader, text: string, i: nat)
    requires ReadsAnyGroup(strtoul) && GoodGroups(Pieces(text)) && i == FirstComma(text)
    ensures strtoul(text).1 == i && SameBits(strtoul(text).0, text[..i])
    ensures i < |text| ==> GoodGroups(Pieces(text[i + 1..])) && Pieces(text) == [text[..i]] + Pieces(text[i + 1..])
    ensures i == |text| ==> text != "" && Pieces(text) == [text[..i]]
  {
    PiecesCases(text, i);
    HeadIsGood(Pieces(text));
    SplitAt(text, i);
    if i < |text| {
      RestIsGood(text[..i], Pieces(text[i + 1..]));
    }
    OneRead(strtoul, text[..i], text[i..]);
  }

  lemma RestIsGood(g: string, rest: seq<string>)
    requires GoodGroups([g] + rest) && rest != []
    ensures GoodGroups(rest)
  {
    assert forall j :: 0 <= j < |rest| ==> ([g] + rest)[j + 1] == rest[j];
  }

  lemma SameBefore(val: nat, g: string, vals: seq<nat>, gs: seq<string>)
    requires SameBits(val, g) && AllSame(vals, gs)
    ensures AllSame([val] + vals, [g] + gs)
  {
    forall j | 0 <= j < 1 + |gs| ensures SameBits(([val] + vals)[j], ([g] + gs)[j]) {
      if j > 0 {
        assert SameBits(vals[j - 1], gs[j - 1]);
      }
    }
  }

  lemma {:induction false} PiecesParse(strtoul: Reader, text: string) returns (vals: seq<nat>)
    requires ReadsAnyGroup(strtoul) && GoodGroups(Pieces(text))
    ensures AllSame(vals, Pieces(text)) && ParseGroups(strtoul, text, |Pieces(text)|) == Groups(vals)
    decreases |text|
  {
    var i, val := FirstComma(text), strtoul(text).0;
    FirstGroupRead(strtoul, text, i);
    if i == |text| {
      vals := [val];
      OneReadsBack(strtoul, val, text);
    } else {
      vals := PiecesParse(strtoul, text[i + 1..]);
      SameBefore(val, text[..i], vals, Pieces(text[i + 1..]));
      ParseMore(strtoul, text, val, i, text[i + 1..], |Pieces(text)|);
      vals := [val] + vals;
    }
  }

  lemma GroupIsShort(g: string, i: nat)
    requires IsGroup(g) && i >= 32
    ensures !GroupBit(g, i)
  {
  }

  lemma JoinedShows(high: nat, low: nat, hg: string, lg: string, i: nat)
    requires SameBits(high, hg) && SameBits(low, lg) && IsGroup(hg) && IsGroup(lg) && i < 64
    ensures Joined(high, low)[i] <==> if i < 32 then GroupBit(lg, i) else GroupBit(hg, i - 32)
  {
    BitOfBits(low, 64, i);
    if i >= 32 {
      BitOfBits(high, 64, i - 32);
      GroupIsShort(lg, i);
    }
  }

  /** Group c from the right, or none. */
  function GroupFromRight(gs: seq<string>, c: nat): string {
    if c < |gs| then gs[|gs| - 1 - c] else ""
  }

  lemma GroupAtShows(vals: seq<nat>, gs: seq<string>, c: nat)
    requires AllSame(vals, gs) && GoodGroups(gs)
    ensures SameBits(GroupAt(vals, |vals|, c), GroupFromRight(gs, c)) && IsGroup(GroupFromRight(gs, c))
  {
    if c >= |gs| {
      forall i: nat ensures !Bit(0, i) {
        NoBits(i);
      }
    }
  }

  lemma WordShows(vals: seq<nat>, gs: seq<string>, inf: bool, i: nat)
    requires AllSame(vals, gs) && GoodGroups(gs)
    ensures Has(WordsOf(vals), inf, i) <==>
            if i / 64 < (|gs| + 1) / 2 then GroupBit(GroupFromRight(gs, i / 32), i % 32) else inf
  {
    var k := i / 64;
    if k < (|gs| + 1) / 2 {
      GroupAtShows(vals, gs, 2 * k);
      GroupAtShows(vals, gs, 2 * k + 1);
      JoinedShows(GroupAt(vals, |vals|, 2 * k + 1), GroupAt(vals, |vals|, 2 * k), GroupFromRight(gs, 2 * k + 1),
                  GroupFromRight(gs, 2 * k), i % 64);
      assert i / 32 == if i % 64 < 32 then 2 * k else 2 * k + 1;
      assert i % 32 == if i % 64 < 32 then i % 64 else i % 64 - 32;
    }
  }

  lemma WordsShow(text: string, vals: seq<nat>, i: nat)
    requires AllSame(vals, GroupsIn(text)) && GoodGroups(GroupsIn(text))
    ensures Has(WordsOf(vals), IsInfinite(text), i) <==> Shows(text, i)
  {
    var gs := GroupsIn(text);
    WordShows(vals, gs, IsInfinite(text), i);
    assert i / 64 < (|gs| + 1) / 2 <==> i / 32 < |gs| + |gs| % 2;
  }

  /** The parser takes a text for the set that it shows. */
  lemma HexTextMeans(strtoul: Reader, text: string)
    requires ReadsAnyGroup(strtoul) && IsHexText(text)
    ensures text != "" && !ReadHex(strtoul, text).Failure?
    ensures forall s: iset<nat> ::
              Understood(ReadHex(strtoul, text), s) <==> forall i: nat :: i in s <==> Shows(text, i)
  {
    if IsInfinite(text) && |text| == 7 {
      forall i: nat ensures Shows(text, i) {
      }
    } else {
      var vals := PiecesParse(strtoul, if IsInfinite(text) then text[8..] else text);
      GroupsRead(strtoul, text, vals);
      forall i: nat ensures i in Denote(WordsOf(vals), IsInfinite(text)) <==> Shows(text, i) {
        WordsShow(text, vals, i);
      }
    }
  }

  lemma GroupsRead(strtoul: Reader, text: string, vals: seq<nat>)
    requires IsHexText(text) && (IsInfinite(text) ==> |text| > 8)
    requires var body := if IsInfinite(text) then text[8..] else text;
             ParseGroups(strtoul, body, |Pieces(body)|) == Groups(vals)
    ensures text != "" && ReadHex(strtoul, text) == Finished(vals, IsInfinite(text))
  {
    if IsInfinite(text) {
      CommasInPrefix(text);
      CommasArePieces(text[8..]);
    } else {
      assert text != "" && text[0] != ',' by {
        assert GroupsIn(text)[0] == text[..FirstComma(text)];
      }
      CommasArePieces(text);
    }
  }

  // ----- The model of strtoul.

  lemma StrtoulReadsDigits(ds: string, tail: string)
    requires ds != "" && |ds| <= 8 && IsHex(ds) && (tail == "" || tail[0] == ',')
    ensures Strtoul("0x" + (ds + tail), 16) == (ValueAfter(ds, 16, 0), 2 + |ds|)
  {
    HexDigits(ds);
    ScanDigits(ds, tail, 16, 0);
    ValueFits(ds);
    StrtoulAfterPrefix(ds + tail, ValueAfter(ds, 16, 0), |ds|);
  }

  lemma ValueFits(ds: string)
    requires |ds| <= 8 && IsHex(ds)
    ensures ValueAfter(ds, 16, 0) <= ULONG_MAX
  {
    HexDigits(ds);
    ValueBelow(ds);
    PowerBelow(|ds|, 8);
    PowersAgree();
  }

  lemma StrtoulAfterPrefix(body: string, v: nat, n: nat)
    requires body != "" && DigitValue(body[0]) < 16 && Scan(body, 16, 0) == (v, n) && n > 0 && v <= ULONG_MAX
    ensures Strtoul("0x" + body, 16) == (v, 2 + n)
  {
    var s := "0x" + body;
    assert s[2..] == body && s[2] == body[0];
    StrtoulPlain(s, 16, 16, 2, v, n);
  }

  lemma {:induction false} PowerBelow(w: nat, w': nat)
    requires w <= w'
    ensures Power(16, w) <= Power(16, w')
  {
    if w < w' {
      PowerBelow(w, w' - 1);
    }
  }

  /** The model of strtoul does what is asked. */
  lemma StrtoulReadsAnyGroup()
    ensures ReadsAnyGroup(text => Strtoul(text, 16))
  {
    var strtoul: Reader := text => Strtoul(text, 16);
    forall g: string, tail: string | IsGroup(g) && (if tail == "" then g != "" else tail[0] == ',')
      ensures ReadsOne(strtoul, g, tail)
    {
      if g == "" {
        assert g + tail == tail;
        StrtoulComma(tail);
        forall i: nat ensures !Bit(0, i) {
          NoBits(i);
        }
      } else {
        assert g == "0x" + g[2..];
        Regroup("0x", g[2..], tail);
        StrtoulReadsDigits(g[2..], tail);
        forall i: nat ensures Bit(ValueAfter(g[2..], 16, 0), i) <==> GroupBit(g, i) {
          ValueBits(g[2..], i);
        }
      }
    }
  }

  // ----- Printing.

  /** A group as it is printed: nothing for zero, but for the last; otherwise 0x and eight digits, not all zero. */
  ghost predicate IsPrintedGroup(g: string, last: bool) {
    || (!last && g == "")
    || (last && g == "0x0")
    || (|g| == 10 && "0x" <= g && IsHex(g[2..]) && g[2..] != "00000000")
  }

  ghost predicate PrintedGroups(gs: seq<string>) {
    forall j :: 0 <= j < |gs| ==> IsPrintedGroup(gs[j], j == |gs| - 1)
  }

  lemma NotZeros(g: nat)
    requires 0 < g < Power(16, 8)
    ensures Fixed(g, 16, 8) != "00000000"
  {
    FixedValue(g, 16, 8);
    if Fixed(g, 16, 8) == "00000000" {
      ZerosAreZero("00000000");
    }
  }

  lemma {:induction false} ZerosAreZero(s: string)
    requires forall i :: 0 <= i < |s| ==> s[i] == '0'
    ensures ValueAfter(s, 16, 0) == 0
  {
    if s != "" {
      ZerosAreZero(s[..|s| - 1]);
    }
  }

  lemma GroupIsPrinted(g: nat, last: bool)
    requires g < Power(16, 8)
    ensures IsPrintedGroup(Group(g, last), last) && (g != 0 ==> Group(g, last) != "")
    ensures forall j :: 0 <= j < |Group(g, last)| ==> Group(g, last)[j] != ','
  {
    if g != 0 {
      FixedIsHex(g, 8);
      NotZeros(g);
      HexIsNotComma(Fixed(g, 16, 8));
      assert Group(g, last)[2..] == Fixed(g, 16, 8);
      assert forall j :: 2 <= j < 10 ==> Group(g, last)[j] == Fixed(g, 16, 8)[j - 2];
    }
  }

  lemma HexIsNotComma(s: string)
    requires IsHex(s)
    ensures forall j :: 0 <= j < |s| ==> s[j] != ','
  {
    HexDigits(s);
  }

  lemma FirstPiece(g: string, rest: string)
    requires forall j :: 0 <= j < |g| ==> g[j] != ','
    ensures Pieces(g) == [g] && Pieces(g + ("," + rest)) == [g] + Pieces(rest)
  {
    CommaAfter(g, rest);
    PiecesStep(g + ("," + rest), |g|);
    assert (g + ("," + rest))[..|g|] == g && (g + ("," + rest))[|g| + 1..] == rest;
  }

  lemma PiecesStep(text: string, i: nat)
    requires i == FirstComma(text) < |text|
    ensures Pieces(text) == [text[..i]] + Pieces(text[i + 1..])
  {
  }

  lemma {:induction false} CommaAfter(g: string, rest: string)
    requires forall j :: 0 <= j < |g| ==> g[j] != ','
    ensures FirstComma(g) == |g| && FirstComma(g + ("," + rest)) == |g|
  {
    var text := g + ("," + rest);
    assert text[|g|] == ',' && forall j :: 0 <= j < |g| ==> text[j] == g[j];
  }

  lemma {:induction false} TextIsPrinted(g: nat, gs: seq<nat>)
    requires g < Power(16, 8) && Small(gs)
    ensures PrintedGroups(Pieces(TextOf(g, gs))) && Pieces(TextOf(g, gs))[0] == Group(g, gs == [])
    ensures |Pieces(TextOf(g, gs))| == 1 + |gs|
    decreases |gs|
  {
    GroupIsPrinted(g, gs == []);
    if gs == [] {
      assert TextOf(g, gs) == Group(g, true);
      FirstPiece(Group(g, true), "");
    } else {
      var rest := TextOf(gs[0], gs[1..]);
      PrintedAfterComma(gs);
      TextIsPrinted(gs[0], gs[1..]);
      FirstPiece(Group(g, false), rest);
      PrintedBefore(Group(g, false), Pieces(rest));
    }
  }

  lemma PrintedBefore(g: string, gs: seq<string>)
    requires IsPrintedGroup(g, false) && PrintedGroups(gs) && gs != []
    ensures PrintedGroups([g] + gs)
  {
    forall j | 0 <= j < 1 + |gs| ensures IsPrintedGroup(([g] + gs)[j], j == |gs|) {
      if j > 0 {
        assert IsPrintedGroup(gs[j - 1], j - 1 == |gs| - 1);
      }
    }
  }

  lemma PrintedIsGood(gs: seq<string>)
    requires PrintedGroups(gs)
    ensures GoodGroups(gs)
  {
    forall j | 0 <= j < |gs| ensures IsGroup(gs[j]) {
      assert IsPrintedGroup(gs[j], j == |gs| - 1);
      if gs[j] == "0x0" {
        DigitIs(0);
        assert IsHexDigit('0') && gs[j][2..] == "0";
      }
    }
    assert gs != [] ==> IsPrintedGroup(gs[|gs| - 1], true);
  }

  /** What is printed: whether it starts with the infinite prefix, and its groups. */
  lemma HexTextShape(ws: seq<Word>, inf: bool)
    ensures IsInfinite(HexText(ws, inf)) <==> inf
    ensures IsHexText(HexText(ws, inf)) && PrintedGroups(GroupsIn(HexText(ws, inf)))
    ensures inf ==> |GroupsIn(HexText(ws, inf))| == 2 * Trimmed(ws, Full())
  {
    var n := Trimmed(ws, if inf then Full() else Zero());
    var gs := GroupsOf(ws, n);
    GroupsAreSmall(ws, n);
    if inf {
      if n > 0 {
        assert [gs[0]] + gs[1..] == gs;
        PrintedAfterComma(gs);
        AfterPrefix(TextOf(gs[0], gs[1..]));
        TextIsPrinted(gs[0], gs[1..]);
        CommasInText(gs[0], gs[1..]);
        assert TextOf(gs[0], gs[1..]) != "";
      }
    } else if n == 0 {
      ZeroShape();
    } else {
      FiniteShape(ws, n);
    }
    PrintedIsGood(GroupsIn(HexText(ws, inf)));
  }

  lemma ZeroShape()
    ensures Pieces("0x0") == ["0x0"] && !IsInfinite("0x0") && PrintedGroups(["0x0"])
  {
    FirstPiece("0x0", "");
  }

  lemma FiniteShape(ws: seq<Word>, n: nat)
    requires n == Trimmed(ws, Zero()) && n > 0
    ensures !IsInfinite(HexText(ws, false)) && PrintedGroups(Pieces(HexText(ws, false)))
    ensures Pieces(HexText(ws, false))[0] != ""
  {
    var all := GroupsOf(ws, n);
    NotBothZero(ws[n - 1]);
    GroupsAreSmall(ws, n);
    FirstPrinted(all);
    var gs := if all[0] != 0 then all else all[1..];
    TextIsPrinted(gs[0], gs[1..]);
    GroupIsPrinted(gs[0], gs[1..] == []);
    TextStart(gs[0], gs[1..]);
    assert "" + Printed(all, false) == Printed(all, false);
  }

  /** The text that is printed shows exactly the set, whatever strtoul does. */
  lemma HexTextShows(ws: seq<Word>, inf: bool, i: nat)
    ensures i in Denote(ws, inf) <==> Shows(HexText(ws, inf), i)
  {
    var strtoul: Reader := text => Strtoul(text, 16);
    StrtoulReadsGroups();
    StrtoulReadsAnyGroup();
    HexRoundTrip(strtoul, ws, inf);
    HexTextShape(ws, inf);
    HexTextMeans(strtoul, HexText(ws, inf));
    assert Understood(ReadHex(strtoul, HexText(ws, inf)), Denote(ws, inf));
  }

  /** Nothing is printed that need not be: the first group of a finite set is not empty, and among the first two of
      an infinite one some bit is missing. */
  lemma HexTextIsShort(ws: seq<Word>, inf: bool)
    ensures var text := HexText(ws, inf);
            var gs := GroupsIn(text);
            if inf then
              |gs| % 2 == 0 && (gs != [] ==> exists i: nat :: i / 64 == |gs| / 2 - 1 && !Shows(text, i))
            else gs != [] && gs[0] != "" && (|gs| > 1 ==> gs[0] != "0x0")
  {
    HexTextShape(ws, inf);
    var gs := GroupsIn(HexText(ws, inf));
    if inf && gs != [] {
      var n := Trimmed(ws, Full());
      var b := MissingBit(ws[n - 1]);
      var i: nat := 64 * (n - 1) + b;
      HexTextShows(ws, inf, i);
      assert i / 64 == n - 1 && i % 64 == b;
    } else if !inf {
      assert IsPrintedGroup(gs[0], 0 == |gs| - 1);
    }
  }

  lemma MissingBit(w: Word) returns (b: nat)
    requires w != Full()
    ensures b < 64 && !w[b]
  {
    if forall k :: 0 <= k < 64 ==> w[k] {
      WordExt(w, Full());
    }
    b :| b < 64 && !w[b];
  }
}
