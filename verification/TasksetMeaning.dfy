/** Which set a text that is one hexadecimal number shows, bit by bit, and that both the printer and the parser of
    BitmapTaskset take it so. */
module TasksetMeaning {
  import opened Words
  import opened WordNumbers
  import opened Numerals
  import opened TextMeaning
  import opened BitSets
  import opened BitmapHex
  import opened BitmapTaskset
  import opened HexMeaning

  // ----- What a text shows.

  function DigitsIn(text: string): string {
    if IsInfinite(text) then text[7..] else if "0x" <= text then text[2..] else text
  }

  /** Index i: four to a digit from the right. Above the digits, all are in an infinite set but those that complete
      a word of 16 digits. */
  ghost predicate ShowsNumber(text: string, i: nat) {
    var ds := DigitsIn(text);
    if i / 4 < |ds| then HexBit(ds, i) else IsInfinite(text) && i / 64 >= (|ds| + 15) / 16
  }

  ghost predicate IsNumberText(text: string) {
    IsHex(DigitsIn(text))
  }

  // ----- Parsing.

  ghost predicate ReadsNumber(strtoul: Reader, ds: string) {
    strtoul(ds).1 == |ds| && forall i: nat :: Bit(strtoul(ds).0, i) <==> HexBit(ds, i)
  }

  /** What is asked of strtoul: up to sixteen digits are read as the number they are. */
  ghost predicate ReadsAnyNumber(strtoul: Reader) {
    forall ds: string :: 0 < |ds| <= 16 && IsHex(ds) ==> ReadsNumber(strtoul, ds)
  }

  lemma HexPart(ds: string, a: nat, b: nat)
    requires IsHex(ds) && a <= b <= |ds|
    ensures IsHex(ds[a..b])
  {
    assert forall j :: 0 <= j < b - a ==> ds[a..b][j] == ds[a + j];
  }

  lemma BitBehind(ds: string, w: nat, i: nat)
    requires w <= |ds| && i / 4 < |ds| - w
    ensures HexBit(ds, i) <==> HexBit(ds[w..], i)
  {
    var rest := ds[w..];
    assert rest[|rest| - 1 - i / 4] == ds[|ds| - 1 - i / 4];
  }

  lemma BitInFront(ds: string, w: nat, b: nat)
    requires w <= |ds|
    ensures HexBit(ds, 4 * (|ds| - w) + b) <==> HexBit(ds[..w], b)
  {
    var i := 4 * (|ds| - w) + b;
    assert i / 4 == |ds| - w + b / 4 && i % 4 == b % 4;
    assert b / 4 < w ==> ds[..w][w - 1 - b / 4] == ds[|ds| - 1 - i / 4];
  }

  /** The words that the values are have the bits that the digits show. */
  ghost predicate WordsShowDigits(vals: seq<nat>, ds: string) {
    && |vals| == (|ds| + 15) / 16
    && forall k: nat, b: nat :: k < |vals| && b < 64 ==> (WordsFrom(vals)[k][b] <==> HexBit(ds, 64 * k + b))
  }

  lemma OneMoreWord(val: nat, vals: seq<nat>, ds: string, w: nat)
    requires 0 < w <= 16 && w <= |ds| && |ds| - w == 16 * |vals| && WordsShowDigits(vals, ds[w..])
    requires forall i: nat :: Bit(val, i) <==> HexBit(ds[..w], i)
    ensures WordsShowDigits([val] + vals, ds)
  {
    WordsFromFront(val, vals);
    forall k: nat, b: nat | k < |vals| + 1 && b < 64
      ensures WordsFrom([val] + vals)[k][b] <==> HexBit(ds, 64 * k + b)
    {
      if k < |vals| {
        BitBehind(ds, w, 64 * k + b);
      } else {
        BitOfBits(val, 64, b);
        BitInFront(ds, w, b);
      }
    }
  }

  lemma {:induction false} DigitsParse(strtoul: Reader, ds: string) returns (vals: seq<nat>)
    requires ReadsAnyNumber(strtoul) && IsHex(ds)
    ensures ParseChunks(strtoul, ds) == Values(vals) && WordsShowDigits(vals, ds)
    decreases |ds|
  {
    if ds == "" {
      vals := [];
    } else {
      var w := TopWidth(|ds|);
      TopIsRead(strtoul, ds, w);
      var more := DigitsParse(strtoul, ds[w..]);
      ChunkStep(strtoul, ds, w);
      OneMoreWord(strtoul(ds[..w]).0, more, ds, w);
      vals := [strtoul(ds[..w]).0] + more;
    }
  }

  lemma TopIsRead(strtoul: Reader, ds: string, w: nat)
    requires ReadsAnyNumber(strtoul) && IsHex(ds) && 0 < w <= 16 && w <= |ds|
    ensures IsHex(ds[w..]) && strtoul(ds[..w]).1 == w
    ensures forall i: nat :: Bit(strtoul(ds[..w]).0, i) <==> HexBit(ds[..w], i)
  {
    HexPart(ds, 0, w);
    HexPart(ds, w, |ds|);
    assert ds[0..w] == ds[..w] && ds[w..|ds|] == ds[w..];
    assert ReadsNumber(strtoul, ds[..w]);
  }

  lemma WordsOfText(text: string, vals: seq<nat>, i: nat)
    requires WordsShowDigits(vals, DigitsIn(text))
    ensures Has(WordsFrom(vals), IsInfinite(text), i) <==> ShowsNumber(text, i)
  {
    var ds := DigitsIn(text);
    var k, b := i / 64, i % 64;
    if k < |vals| {
      assert WordsFrom(vals)[k][b] <==> HexBit(ds, 64 * k + b);
    }
  }

  /** The parser takes a text for the set that it shows. */
  lemma TasksetTextMeans(strtoul: Reader, text: string)
    requires ReadsAnyNumber(strtoul) && IsNumberText(text)
    ensures ReadTaskset(strtoul, text) != Invalid
    ensures forall s: iset<nat> ::
              Means(ReadTaskset(strtoul, text), s) <==> forall i: nat :: i in s <==> ShowsNumber(text, i)
  {
    var ds := DigitsIn(text);
    var vals := DigitsParse(strtoul, ds);
    forall i: nat ensures i in Denote(WordsFrom(vals), IsInfinite(text)) <==> ShowsNumber(text, i) {
      WordsOfText(text, vals, i);
    }
    if ds == "" {
      forall i: nat ensures ShowsNumber(text, i) <==> IsInfinite(text) {
      }
    } else {
      assert ReadTaskset(strtoul, text) == Number(vals, IsInfinite(text));
    }
  }

  // ----- The model of strtoul.

  lemma StrtoulReadsAnyNumber()
    ensures ReadsAnyNumber(text => Strtoul(text, 16))
  {
    var strtoul: Reader := text => Strtoul(text, 16);
    forall ds: string | 0 < |ds| <= 16 && IsHex(ds) ensures ReadsNumber(strtoul, ds) {
      HexDigits(ds);
      assert ds + "" == ds;
      ScanDigits(ds, "", 16, 0);
      ValueBelow(ds);
      PowerMonotone(|ds|, 16);
      WordFits();
      StrtoulDigits(ds, ValueAfter(ds, 16, 0));
      forall i: nat ensures Bit(strtoul(ds).0, i) <==> HexBit(ds, i) {
        ValueBits(ds, i);
      }
    }
  }

  // ----- Printing.

  lemma HexAppend(s: string, t: string)
    requires IsHex(s) && IsHex(t)
    ensures IsHex(s + t)
  {
  }

  lemma {:induction false} FullWordsAreHex(ws: seq<Word>, n: nat)
    requires n <= |ws|
    ensures IsHex(WordsText(ws, n, true)) && |WordsText(ws, n, true)| == 16 * n
  {
    WordsTextLength(ws, n);
    if n > 0 {
      FullWordsAreHex(ws, n - 1);
      FixedIsHex(ToNat(ws[n - 1]), 16);
      HexAppend(Fixed(ToNat(ws[n - 1]), 16, 16), WordsText(ws, n - 1, true));
    }
  }

  /** What is printed: 0x and the number without leading zeros, or the infinite prefix and whole words. */
  lemma TasksetTextShape(ws: seq<Word>, inf: bool)
    requires ws != []
    ensures var text := TasksetText(ws, inf);
            && (IsInfinite(text) <==> inf) && IsNumberText(text) && ("0x" <= text)
            && if inf then |DigitsIn(text)| == 16 * Trimmed(ws, Full())
               else DigitsIn(text) != "" && (DigitsIn(text)[0] == '0' ==> DigitsIn(text) == "0")
  {
    var n := PrintedWords(ws, inf);
    PrintedWordsDenote(ws, inf);
    if inf {
      FullWordsAreHex(ws, n);
      assert TasksetText(ws, true)[7..] == WordsText(ws, n, true);
    } else {
      FiniteNumber(ws, n);
    }
  }

  lemma TopIsHex(w: Word)
    ensures IsHex(Shortest(ToNat(w), 16))
    ensures Shortest(ToNat(w), 16)[0] == '0' ==> Shortest(ToNat(w), 16) == "0" && w == Zero()
  {
    TopWordText(w);
    FixedIsHex(ToNat(w), |Shortest(ToNat(w), 16)|);
    ShortestLeading(ToNat(w), 16);
    WordReadBack(w);
  }

  /** 0x and digits, without leading zeros. */
  ghost predicate IsPlainNumber(text: string) {
    && !IsInfinite(text) && "0x" <= text && IsHex(text[2..]) && text[2..] != ""
    && (text[2] == '0' ==> text[2..] == "0")
  }

  lemma AfterZeroX(top: string, rest: string)
    requires top != "" && IsHex(top) && IsHex(rest) && (top[0] == '0' ==> top == "0" && rest == "")
    ensures IsPlainNumber(("0x" + top) + rest)
  {
    var text := ("0x" + top) + rest;
    HexDigits(top);
    HexDigits(rest);
    HexDigitsStart(top, rest);
    HexAppend(top, rest);
    assert text[2..] == top + rest && text[2] == top[0];
  }

  lemma TopAndRest(ws: seq<Word>, n: nat)
    requires 0 < n <= |ws| && (n > 1 ==> ws[n - 1] != Zero())
    ensures IsPlainNumber(("0x" + Shortest(ToNat(ws[n - 1]), 16)) + WordsText(ws, n - 1, true))
  {
    var top, rest := Shortest(ToNat(ws[n - 1]), 16), WordsText(ws, n - 1, true);
    TopIsHex(ws[n - 1]);
    FullWordsAreHex(ws, n - 1);
    AfterZeroX(top, rest);
  }

  lemma FiniteNumber(ws: seq<Word>, n: nat)
    requires 0 < n <= |ws| && n == PrintedWords(ws, false) && (n > 1 ==> ws[n - 1] != Zero())
    ensures IsPlainNumber(TasksetText(ws, false))
  {
    TopAndRest(ws, n);
    WordReadBack(ws[n - 1]);
    FiniteText(ws, n);
  }

  /** The text that is printed shows exactly the set, whatever strtoul does. */
  lemma TasksetTextShows(ws: seq<Word>, inf: bool, i: nat)
    requires ws != []
    ensures i in Denote(ws, inf) <==> ShowsNumber(TasksetText(ws, inf), i)
  {
    var strtoul: Reader := text => Strtoul(text, 16);
    StrtoulReadsChunks();
    StrtoulReadsAnyNumber();
    TasksetRoundTrip(strtoul, ws, inf);
    TasksetTextShape(ws, inf);
    TasksetTextMeans(strtoul, TasksetText(ws, inf));
    assert Means(ReadTaskset(strtoul, TasksetText(ws, inf)), Denote(ws, inf));
  }

  /** No word is printed that need not be: in the top word of an infinite set some bit is missing. */
  lemma TasksetTextIsShort(ws: seq<Word>)
    requires ws != []
    ensures var text := TasksetText(ws, true);
            DigitsIn(text) != "" ==> exists i: nat :: i / 64 == |DigitsIn(text)| / 16 - 1 && !ShowsNumber(text, i)
  {
    TasksetTextShape(ws, true);
    var n := Trimmed(ws, Full());
    if n > 0 {
      var b := MissingBit(ws[n - 1]);
      var i: nat := 64 * (n - 1) + b;
      TasksetTextShows(ws, true, i);
      assert i / 64 == n - 1 && i % 64 == b;
    }
  }
}
