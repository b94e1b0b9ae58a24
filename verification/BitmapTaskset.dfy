/** Bitmaps as one hexadecimal number: hwloc_bitmap_taskset_snprintf and hwloc_bitmap_taskset_sscanf
    (src/hwloc/hwloc/bitmap.c). */
module BitmapTaskset {
  import opened Words
  import opened WordNumbers
  import opened Numerals
  import opened BitSets
  import opened WordwiseOps
  import opened Bitmaps
  import opened BitmapHex

  // ----- Printing.

  /** The lowest n words, from the top; until something is printed, zero words but the last are skipped. */
  function WordsText(ws: seq<Word>, n: nat, started: bool): string
    requires n <= |ws|
  {
    if n == 0 then ""
    else
      var val := ToNat(ws[n - 1]);
      if started then Fixed(val, 16, 16) + WordsText(ws, n - 1, true)
      else if val != 0 || n == 1 then ("0x" + Shortest(val, 16)) + WordsText(ws, n - 1, true)
      else WordsText(ws, n - 1, false)
  }

  /** How many words are printed: for a finite set, at least one. */
  function PrintedWords(ws: seq<Word>, inf: bool): (n: nat)
    ensures n <= |ws|
  {
    if inf then Trimmed(ws, Full()) else if Trimmed(ws, Zero()) == 0 && ws != [] then 1 else Trimmed(ws, Zero())
  }

  function TasksetText(ws: seq<Word>, inf: bool): string {
    var text := (if inf then INFINITE_PREFIX else "") + WordsText(ws, PrintedWords(ws, inf), inf);
    if text == "" then "0x0" else text
  }

  method SkipTop(s: Bitmap) returns (n: nat)
    requires s.Valid()
    ensures n == PrintedWords(s.Stored(), s.infinite)
  {
    n := s.ulongsCount;
    var filler, least := if s.infinite then Full() else Zero(), if s.infinite then 0 else 1;
    assert s.ulongs[..n] == s.Stored();
    while n > least && s.ulongs[n - 1] == filler
      invariant least <= n <= s.ulongsCount
      invariant Trimmed(s.Stored(), filler) == Trimmed(s.ulongs[..n], filler)
    {
      assert s.ulongs[..n][..n - 1] == s.ulongs[..n - 1];
      n := n - 1;
    }
    assert n == 1 ==> s.ulongs[..1][..0] == [] && s.ulongs[..1][0] == s.ulongs[0];
  }

  function WithWords(text: string, ws: seq<Word>, n: nat, started: bool): string
    requires n <= |ws|
  {
    text + WordsText(ws, n, started)
  }

  lemma WordsTextStep(ws: seq<Word>, n: nat, started: bool, text: string, piece: string, started': bool)
    requires 0 < n <= |ws|
    requires started' == (started || ToNat(ws[n - 1]) != 0 || n == 1)
    requires var val := ToNat(ws[n - 1]);
             piece == if started then Fixed(val, 16, 16)
             else if val != 0 || n == 1 then "0x" + Shortest(val, 16)
             else ""
    ensures WithWords(text + piece, ws, n - 1, started') == WithWords(text, ws, n, started)
  {
    assert "" + WordsText(ws, n - 1, started') == WordsText(ws, n - 1, started');
    Regroup(text, piece, WordsText(ws, n - 1, started'));
  }

  /** One turn, with `left` words below. */
  method PrintWord(val: nat, left: nat, started: bool, text: string, ghost ws: seq<Word>)
    returns (text': string, started': bool)
    requires left < |ws| && val == ToNat(ws[left])
    ensures WithWords(text', ws, left, started') == WithWords(text, ws, left + 1, started)
  {
    var piece := "";
    started' := started;
    if started {
      piece := Fixed(val, 16, 16);
    } else if val != 0 || left == 0 {
      piece := "0x" + Shortest(val, 16);
      started' := true;
    }
    WordsTextStep(ws, left + 1, started, text, piece, started');
    text' := text + piece;
  }

  method PrintWords(s: Bitmap, n: nat, prefix: string) returns (text: string)
    requires s.Valid() && n <= s.ulongsCount
    ensures text == prefix + WordsText(s.Stored(), n, s.infinite)
  {
    ghost var ws := s.Stored();
    text := prefix;
    var started, left: nat := s.infinite, n;
    while left > 0
      invariant left <= n && WithWords(text, ws, left, started) == WithWords(prefix, ws, n, s.infinite)
    {
      left := left - 1;
      text, started := PrintWord(ToNat(s.ulongs[left]), left, started, text, ws);
    }
    assert text + "" == text;
  }

  method PrintTaskset(s: Bitmap) returns (text: string)
    requires s.Valid()
    ensures text == TasksetText(s.Stored(), s.infinite)
  {
    var left := SkipTop(s);
    text := PrintWords(s, left, if s.infinite then INFINITE_PREFIX else "");
    if text == "" {
      text := "0x0";
    }
  }

  // ----- Parsing.

  /** The digits of the topmost word: all the others have 16. */
  function TopWidth(chars: nat): (w: nat)
    requires chars > 0
    ensures 0 < w <= 16 && w <= chars && (chars - w) % 16 == 0
  {
    if chars % 16 == 0 then 16 else chars % 16
  }

  datatype Chunks = Values(vals: seq<nat>) | NotHex

  function Over(val: nat, rest: Chunks): Chunks {
    if rest.Values? then Values([val] + rest.vals) else NotHex
  }

  /** Words from the top; each must be a number to its end. */
  function ParseChunks(strtoul: Reader, text: string): Chunks
    decreases |text|
  {
    if text == "" then Values([])
    else
      var w := TopWidth(|text|);
      var (val, n) := strtoul(text[..w]);
      if n < w then NotHex
      else
        Over(val, ParseChunks(strtoul, text[w..]))
  }

  /** Values from the top, as words from the bottom. */
  function WordsFrom(vals: seq<nat>): (ws: seq<Word>)
    ensures |ws| == |vals|
  {
    if vals == [] then [] else WordsFrom(vals[1..]) + [FromNat(vals[0])]
  }

  lemma {:induction false} WordsFromAppend(vals: seq<nat>, val: nat)
    ensures WordsFrom(vals + [val]) == [FromNat(val)] + WordsFrom(vals)
  {
    if vals == [] {
      assert (vals + [val])[1..] == [];
    } else {
      assert (vals + [val])[1..] == vals[1..] + [val];
      WordsFromAppend(vals[1..], val);
    }
  }

  datatype Meaning = All | Nothing | Number(vals: seq<nat>, inf: bool) | Invalid

  function ReadTaskset(strtoul: Reader, text: string): Meaning {
    if INFINITE_PREFIX <= text then
      if |text| == 7 then All
      else
        var chunks := ParseChunks(strtoul, text[7..]);
        if chunks.Values? then Number(chunks.vals, true) else Invalid
    else
      var rest := if "0x" <= text then text[2..] else text;
      if rest == "" then Nothing
      else
        var chunks := ParseChunks(strtoul, rest);
        if chunks.Values? then Number(chunks.vals, false) else Invalid
  }

  ghost predicate Means(m: Meaning, s: iset<nat>) {
    match m
    case All => forall i: nat :: i in s
    case Nothing => s == iset{}
    case Number(vals, inf) => s == Denote(WordsFrom(vals), inf)
    case Invalid => s == iset{}
  }

  method ScanTaskset(strtoul: Reader, s: Bitmap, text: string) returns (ok: bool)
    requires s.Valid() && WithinText(strtoul)
    modifies s
    ensures s.Valid() && Means(ReadTaskset(strtoul, text), s.Set())
    ensures ok <==> ReadTaskset(strtoul, text) != Invalid
  {
    var current, infinite := 0, false;
    if INFINITE_PREFIX <= text {
      infinite := true;
      current := 7;
      if |text| == 7 {
        s.Fill();
        return true;
      }
    } else {
      if "0x" <= text {
        current := 2;
      }
      if current == |text| {
        s.Clear();
        return true;
      }
    }
    assert current == 0 ==> text[current..] == text;
    var digits := text[current..];
    s.ResetByUlongs((|digits| * 4 + 63) / 64);
    s.infinite := false;
    ok := ScanWords(strtoul, s, digits);
    if ok {
      s.infinite := infinite;
    } else {
      s.Clear();
    }
  }

  /** The parse of all digits, from a position with `done` behind it. */
  ghost function ChunksAfter(done: seq<nat>, chunks: Chunks): Chunks {
    if chunks.Values? then Values(done + chunks.vals) else NotHex
  }

  lemma OneChunkMore(strtoul: Reader, text: string, done: seq<nat>)
    requires text != ""
    ensures var w := TopWidth(|text|);
            ChunksAfter(done, ParseChunks(strtoul, text)) ==
            if strtoul(text[..w]).1 < w then NotHex
            else ChunksAfter(done + [strtoul(text[..w]).0], ParseChunks(strtoul, text[w..]))
  {
    var w := TopWidth(|text|);
    var chunks := ParseChunks(strtoul, text[w..]);
    var val := strtoul(text[..w]).0;
    assert chunks.Values? ==> done + ([val] + chunks.vals) == done + [val] + chunks.vals;
  }

  /** What has been read so far, and what there is still to read. */
  ghost predicate Scanning(ws: seq<Word>, count: nat, done: seq<nat>) {
    count <= |ws| && ws[count..] == WordsFrom(done)
  }

  method ScanWords(strtoul: Reader, s: Bitmap, digits: string) returns (ok: bool)
    requires s.Valid() && WithinText(strtoul) && digits != "" && s.ulongsCount == (|digits| * 4 + 63) / 64
    modifies s`ulongs
    ensures s.Valid() && (ok <==> ParseChunks(strtoul, digits).Values?)
    ensures ok ==> s.Stored() == WordsFrom(ParseChunks(strtoul, digits).vals)
  {
    var chars: nat, count: nat := |digits|, s.ulongsCount;
    ghost var done: seq<nat> := [];
    assert digits[0..] == digits;
    assert ChunksAfter([], ParseChunks(strtoul, digits)) == ParseChunks(strtoul, digits);
    while chars > 0
      invariant s.Valid() && chars <= |digits| && count == (chars * 4 + 63) / 64 && Scanning(s.Stored(), count, done)
      invariant Remaining(strtoul, digits, done, chars) == ParseChunks(strtoul, digits)
    {
      ok, chars, done := ScanWord(strtoul, s, digits, chars, count, done);
      if !ok {
        return;
      }
      count := count - 1;
    }
    assert done + [] == done;
    return true;
  }

  lemma WordCount(chars: nat, w: nat)
    requires chars > 0 && w == TopWidth(chars)
    ensures ((chars - w) * 4 + 63) / 64 == (chars * 4 + 63) / 64 - 1
  {
  }

  /** What is left to parse with `chars` characters to go. */
  ghost function Remaining(strtoul: Reader, digits: string, done: seq<nat>, chars: nat): Chunks
    requires chars <= |digits|
  {
    ChunksAfter(done, ParseChunks(strtoul, digits[|digits| - chars..]))
  }

  lemma RemainingStep(strtoul: Reader, digits: string, done: seq<nat>, chars: nat, w: nat, val: nat, n: nat)
    requires 0 < chars <= |digits| && w == TopWidth(chars)
    requires strtoul(digits[|digits| - chars..][..w]) == (val, n)
    ensures Remaining(strtoul, digits, done, chars) ==
            if n < w then NotHex else Remaining(strtoul, digits, done + [val], chars - w)
  {
    OneChunkMore(strtoul, digits[|digits| - chars..], done);
    assert digits[|digits| - chars..][w..] == digits[|digits| - (chars - w)..];
  }

  /** One turn: the next word, of 16 digits but for the topmost. */
  method ScanWord(strtoul: Reader, s: Bitmap, digits: string, chars: nat, count: nat, ghost done: seq<nat>)
    returns (ok: bool, left: nat, ghost done': seq<nat>)
    requires s.Valid() && WithinText(strtoul) && Scanning(s.Stored(), count, done)
    requires 0 < chars <= |digits| && count == (chars * 4 + 63) / 64
    modifies s`ulongs
    ensures s.Valid() && left < chars && count - 1 == (left * 4 + 63) / 64
    ensures ok ==> Scanning(s.Stored(), count - 1, done')
    ensures Remaining(strtoul, digits, done, chars) == if ok then Remaining(strtoul, digits, done', left) else NotHex
  {
    var tmpchars := if chars % 16 == 0 then 16 else chars % 16;
    WordCount(chars, tmpchars);
    left := chars - tmpchars;
    var (val, next) := strtoul(digits[|digits| - chars..][..tmpchars]);
    RemainingStep(strtoul, digits, done, chars, tmpchars, val, next);
    ok, done' := next == tmpchars, done + [val];
    if ok {
      StoreWord(s, count, val, done);
    }
  }

  method StoreWord(s: Bitmap, count: nat, val: nat, ghost done: seq<nat>)
    requires s.Valid() && count > 0 && Scanning(s.Stored(), count, done)
    modifies s`ulongs
    ensures s.Valid() && Scanning(s.Stored(), count - 1, done + [val])
  {
    WordsFromAppend(done, val);
    ghost var above := s.Stored()[count..];
    s.ulongs := s.ulongs[count - 1 := FromNat(val)];
    assert s.Stored()[count - 1..] == [FromNat(val)] + above;
  }

  // ----- Reading back what was printed.

  ghost predicate ReadsChunk(strtoul: Reader, n: nat, w: nat) {
    strtoul(Fixed(n, 16, w)) == (n, w)
  }

  /** What the round trip needs of strtoul. */
  ghost predicate ReadsChunks(strtoul: Reader) {
    forall n: nat, w: nat :: 0 < w <= 16 && n < Power(16, w) ==> ReadsChunk(strtoul, n, w)
  }

  lemma {:induction false} PowerMonotone(w: nat, w': nat)
    requires w <= w'
    ensures Power(16, w) <= Power(16, w')
  {
    if w < w' {
      PowerMonotone(w, w' - 1);
    }
  }

  lemma WordFits()
    ensures Power(16, 16) == Pow2(64) == ULONG_MAX + 1
  {
    PowersAgree();
    assert Power(16, 12) == 0x1_0000_0000_0000;
    assert Pow2(40) == 0x100_0000_0000 && Pow2(48) == 0x1_0000_0000_0000 && Pow2(56) == 0x100_0000_0000_0000;
  }

  lemma StrtoulReadsChunks()
    ensures WithinText(text => Strtoul(text, 16)) && ReadsChunks(text => Strtoul(text, 16))
  {
    var strtoul: Reader := text => Strtoul(text, 16);
    forall n: nat, w: nat | 0 < w <= 16 && n < Power(16, w) ensures ReadsChunk(strtoul, n, w) {
      PowerMonotone(w, 16);
      WordFits();
      StrtoulBare(n, w);
    }
  }

  /** The lowest n words as numbers, from the top. */
  function ValuesOf(ws: seq<Word>, n: nat): seq<nat>
    requires n <= |ws|
  {
    if n == 0 then [] else [ToNat(ws[n - 1])] + ValuesOf(ws, n - 1)
  }

  lemma WordReadBack(w: Word)
    ensures FromNat(ToNat(w)) == w && ToNat(w) < Power(16, 16)
    ensures ToNat(w) == 0 ==> w == Zero()
  {
    BitsRoundTrip(w, 64);
    WordFits();
    WordExt(FromNat(ToNat(w)), w);
    AllFalse(w);
    if ToNat(w) == 0 {
      WordExt(w, Zero());
    }
  }

  lemma LastOf(ws: seq<Word>, n: nat)
    requires 0 < n <= |ws|
    ensures ws[..n] == ws[..n - 1] + [ws[n - 1]]
  {
  }

  lemma WordsFromFront(val: nat, vals: seq<nat>)
    ensures WordsFrom([val] + vals) == WordsFrom(vals) + [FromNat(val)]
  {
    assert ([val] + vals)[1..] == vals;
  }

  lemma {:induction false} ValuesGiveWords(ws: seq<Word>, n: nat)
    requires n <= |ws|
    ensures WordsFrom(ValuesOf(ws, n)) == ws[..n]
  {
    if n > 0 {
      ValuesGiveWords(ws, n - 1);
      WordReadBack(ws[n - 1]);
      WordsFromFront(ToNat(ws[n - 1]), ValuesOf(ws, n - 1));
      LastOf(ws, n);
    }
  }

  lemma {:induction false} WordsTextLength(ws: seq<Word>, n: nat)
    requires n <= |ws|
    ensures |WordsText(ws, n, true)| == 16 * n && |WordsText(ws, n, true)| % 16 == 0
    ensures Digits(WordsText(ws, n, true), 16)
  {
    if n > 0 {
      WordsTextLength(ws, n - 1);
      FixedDigits(ToNat(ws[n - 1]), 16, 16);
    }
  }

  lemma TopWidthOf(w: nat, n: nat)
    requires 0 < w <= 16 && n % 16 == 0
    ensures TopWidth(w + n) == w
  {
  }

  /** A word of 1 to 16 digits in front of full words is one chunk. */
  lemma TopChunk(strtoul: Reader, val: nat, w: nat, rest: string)
    requires ReadsChunks(strtoul) && 0 < w <= 16 && val < Power(16, w) && |rest| % 16 == 0
    ensures ParseChunks(strtoul, Fixed(val, 16, w) + rest) == Over(val, ParseChunks(strtoul, rest))
  {
    TopWidthOf(w, |rest|);
    assert ReadsChunk(strtoul, val, w);
    FirstChunk(strtoul, Fixed(val, 16, w), rest, val);
  }

  lemma FirstChunk(strtoul: Reader, chunk: string, rest: string, val: nat)
    requires chunk != "" && TopWidth(|chunk| + |rest|) == |chunk| && strtoul(chunk) == (val, |chunk|)
    ensures ParseChunks(strtoul, chunk + rest) == Over(val, ParseChunks(strtoul, rest))
  {
    var text := chunk + rest;
    assert text[..|chunk|] == chunk && text[|chunk|..] == rest;
    ChunkStep(strtoul, text, |chunk|);
  }

  lemma ChunkStep(strtoul: Reader, text: string, w: nat)
    requires text != "" && TopWidth(|text|) == w && strtoul(text[..w]).1 >= w
    ensures ParseChunks(strtoul, text) == Over(strtoul(text[..w]).0, ParseChunks(strtoul, text[w..]))
  {
  }

  lemma FullWordReadsBack(strtoul: Reader, w: Word, rest: string)
    requires ReadsChunks(strtoul) && |rest| % 16 == 0
    ensures ParseChunks(strtoul, Fixed(ToNat(w), 16, 16) + rest) == Over(ToNat(w), ParseChunks(strtoul, rest))
  {
    WordReadBack(w);
    TopChunk(strtoul, ToNat(w), 16, rest);
  }

  lemma {:induction false} FullWordsReadBack(strtoul: Reader, ws: seq<Word>, n: nat)
    requires n <= |ws| && ReadsChunks(strtoul)
    ensures ParseChunks(strtoul, WordsText(ws, n, true)) == Values(ValuesOf(ws, n))
  {
    if n > 0 {
      FullWordsReadBack(strtoul, ws, n - 1);
      WordsTextLength(ws, n - 1);
      FullWordReadsBack(strtoul, ws[n - 1], WordsText(ws, n - 1, true));
    }
  }

  lemma TopWordText(w: Word)
    ensures var text := Shortest(ToNat(w), 16);
            0 < |text| <= 16 && text == Fixed(ToNat(w), 16, |text|) && ToNat(w) < Power(16, |text|) && Digits(text, 16)
  {
    WordReadBack(w);
    ShortestIsFixed(ToNat(w), 16);
    ShortestWidth(ToNat(w), 16, 16);
    FixedDigits(ToNat(w), 16, |Shortest(ToNat(w), 16)|);
  }

  lemma ShortWordReadsBack(strtoul: Reader, w: Word, rest: string)
    requires ReadsChunks(strtoul) && |rest| % 16 == 0
    ensures ParseChunks(strtoul, Shortest(ToNat(w), 16) + rest) == Over(ToNat(w), ParseChunks(strtoul, rest))
  {
    TopWordText(w);
    TopChunk(strtoul, ToNat(w), |Shortest(ToNat(w), 16)|, rest);
  }

  lemma ShortTopReadsBack(strtoul: Reader, ws: seq<Word>, n: nat)
    requires 0 < n <= |ws| && ReadsChunks(strtoul)
    ensures ParseChunks(strtoul, Shortest(ToNat(ws[n - 1]), 16) + WordsText(ws, n - 1, true)) == Values(ValuesOf(ws, n))
  {
    FullWordsReadBack(strtoul, ws, n - 1);
    WordsTextLength(ws, n - 1);
    ShortWordReadsBack(strtoul, ws[n - 1], WordsText(ws, n - 1, true));
  }

  lemma HexDigitsStart(top: string, rest: string)
    requires top != "" && Digits(top, 16) && Digits(rest, 16)
    ensures var text := ("0x" + top) + rest;
            top + rest != "" && "0x" <= text && text[2..] == top + rest && !(INFINITE_PREFIX <= text)
  {
    var text := ("0x" + top) + rest;
    assert text == "0x" + (top + rest);
    assert |text| > 3 ==> text[3] == (top + rest)[1] && DigitValue((top + rest)[1]) < 16;
  }

  lemma InfiniteReadsBack(strtoul: Reader, ws: seq<Word>, n: nat)
    requires ReadsChunks(strtoul) && n == Trimmed(ws, Full())
    ensures ReadTaskset(strtoul, TasksetText(ws, true)) == if n == 0 then All else Number(ValuesOf(ws, n), true)
  {
    FullWordsReadBack(strtoul, ws, n);
    WordsTextLength(ws, n);
    assert TasksetText(ws, true)[7..] == WordsText(ws, n, true);
  }

  lemma FiniteText(ws: seq<Word>, n: nat)
    requires 0 < n <= |ws| && n == PrintedWords(ws, false) && (n == 1 || ToNat(ws[n - 1]) != 0)
    ensures TasksetText(ws, false) == ("0x" + Shortest(ToNat(ws[n - 1]), 16)) + WordsText(ws, n - 1, true)
  {
    assert "" + WordsText(ws, n, false) == WordsText(ws, n, false);
  }

  lemma ReadPlain(strtoul: Reader, text: string, digits: string, vals: seq<nat>)
    requires !(INFINITE_PREFIX <= text) && "0x" <= text && text[2..] == digits && digits != ""
    requires ParseChunks(strtoul, digits) == Values(vals)
    ensures ReadTaskset(strtoul, text) == Number(vals, false)
  {
  }

  lemma FiniteReadsBack(strtoul: Reader, ws: seq<Word>, n: nat)
    requires ReadsChunks(strtoul) && 0 < n <= |ws| && n == PrintedWords(ws, false)
    requires n == 1 || ToNat(ws[n - 1]) != 0
    ensures ReadTaskset(strtoul, TasksetText(ws, false)) == Number(ValuesOf(ws, n), false)
  {
    var top, rest := Shortest(ToNat(ws[n - 1]), 16), WordsText(ws, n - 1, true);
    FiniteText(ws, n);
    TopWordText(ws[n - 1]);
    WordsTextLength(ws, n - 1);
    HexDigitsStart(top, rest);
    ShortTopReadsBack(strtoul, ws, n);
    ReadPlain(strtoul, ("0x" + top) + rest, top + rest, ValuesOf(ws, n));
  }

  /** The text of a set, finite or not, is understood as that set. */
  lemma TasksetRoundTrip(strtoul: Reader, ws: seq<Word>, inf: bool)
    requires ReadsChunks(strtoul) && ws != []
    ensures forall s: iset<nat> :: Means(ReadTaskset(strtoul, TasksetText(ws, inf)), s) <==> s == Denote(ws, inf)
    ensures ReadTaskset(strtoul, TasksetText(ws, inf)) != Invalid
  {
    var n := PrintedWords(ws, inf);
    PrintedWordsDenote(ws, inf);
    ValuesGiveWords(ws, n);
    if inf {
      InfiniteReadsBack(strtoul, ws, n);
      if n == 0 {
        UniformDenotes(ws, inf);
      }
    } else {
      WordReadBack(ws[n - 1]);
      FiniteReadsBack(strtoul, ws, n);
    }
    if n > 0 {
      NumberMeans(ReadTaskset(strtoul, TasksetText(ws, inf)), ws, n, inf);
    }
  }

  lemma NumberMeans(m: Meaning, ws: seq<Word>, n: nat, inf: bool)
    requires n <= |ws| && m == Number(ValuesOf(ws, n), inf) && Denote(ws[..n], inf) == Denote(ws, inf)
    requires WordsFrom(ValuesOf(ws, n)) == ws[..n]
    ensures m != Invalid && forall s: iset<nat> :: Means(m, s) <==> s == Denote(ws, inf)
  {
  }

  lemma PrintedWordsDenote(ws: seq<Word>, inf: bool)
    requires ws != []
    ensures Denote(ws[..PrintedWords(ws, inf)], inf) == Denote(ws, inf)
    ensures !inf ==>
              PrintedWords(ws, inf) > 0 && (PrintedWords(ws, inf) > 1 ==> ws[PrintedWords(ws, inf) - 1] != Zero())
  {
    DenoteExt(ws[..PrintedWords(ws, inf)], inf, ws, inf);
  }
}
