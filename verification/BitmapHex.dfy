/** Bitmaps as text in comma-separated 32-bit groups: hwloc_bitmap_snprintf and hwloc_bitmap_sscanf
    (src/hwloc/hwloc/bitmap.c), the most significant group first. */
module BitmapHex {
  import opened Words
  import opened WordNumbers
  import opened Numerals
  import opened BitSets
  import opened WordwiseOps
  import opened Bitmaps

  const INFINITE_PREFIX := "0xf...f"

  // ----- Words and groups.

  function High(w: Word): nat { NatOf(w[32..]) }

  function Low(w: Word): nat { NatOf(w[..32]) }

  /** accum_mask. */
  function HighMask(): Word {
    seq(64, i => i >= 32)
  }

  /** (accum & accum_mask) >> 32 is the upper half; shifting it out brings up the lower one. */
  lemma HighHalf(w: Word)
    ensures BitAnd(w, HighMask()) != Zero() <==> High(w) != 0
    ensures High(w) == ToNat(Shr(BitAnd(w, HighMask()), 32))
    ensures High(Shl(w, 32)) == Low(w)
  {
    var masked := BitAnd(w, HighMask());
    AllFalse(w[32..]);
    assert forall i :: 0 <= i < 32 ==> w[32..][i] == masked[32 + i];
    if High(w) == 0 {
      forall i | 0 <= i < 64 ensures masked[i] == Zero()[i] {
        assert i >= 32 ==> w[i] == w[32..][i - 32];
      }
      WordExt(masked, Zero());
    }
    var shifted := Shr(masked, 32);
    assert shifted == w[32..] + seq(32, _ => false);
    ZerosOnTop(w[32..], 32);
    assert Shl(w, 32)[32..] == w[..32];
  }

  lemma {:induction false} ZerosOnTop(bits: seq<bool>, n: nat)
    ensures NatOf(bits + seq(n, _ => false)) == NatOf(bits)
  {
    var zeros := seq(n, _ => false);
    if bits == [] {
      assert bits + zeros == zeros;
      AllFalse(zeros);
    } else {
      assert (bits + zeros)[1..] == bits[1..] + zeros;
      ZerosOnTop(bits[1..], n);
    }
  }

  /** What the parser stores for two groups. */
  function Joined(high: nat, low: nat): Word {
    BitOr(Shl(FromNat(high), 32), FromNat(low))
  }

  lemma JoinedHalves(w: Word)
    ensures Joined(High(w), Low(w)) == w
    ensures High(w) < Power(16, 8) && Low(w) < Power(16, 8)
  {
    BitsRoundTrip(w[32..], 64);
    BitsRoundTrip(w[..32], 64);
    PowersAgree();
    forall i | 0 <= i < 64 ensures Joined(High(w), Low(w))[i] == w[i] {
    }
    WordExt(Joined(High(w), Low(w)), w);
  }

  lemma PowersAgree()
    ensures Pow2(32) == Power(16, 8) == 0x1_0000_0000
  {
    assert Power(16, 4) == 0x1_0000;
    assert Pow2(8) == 256 && Pow2(16) == 0x1_0000 && Pow2(24) == 0x100_0000;
  }

  // ----- Printing.

  /** How many words are left when those equal to the tail are dropped from the top. */
  function Trimmed(ws: seq<Word>, tail: Word): (n: nat)
    ensures n <= |ws|
    ensures n > 0 ==> ws[n - 1] != tail
    ensures forall k :: n <= k < |ws| ==> ws[k] == tail
  {
    if ws == [] || ws[|ws| - 1] != tail then |ws| else Trimmed(ws[..|ws| - 1], tail)
  }

  /** The groups of the lowest n words, from the top. */
  function GroupsOf(ws: seq<Word>, n: nat): (gs: seq<nat>)
    requires n <= |ws|
    ensures |gs| == 2 * n
  {
    if n == 0 then [] else [High(ws[n - 1]), Low(ws[n - 1])] + GroupsOf(ws, n - 1)
  }

  function Group(g: nat, last: bool): string {
    if g != 0 then "0x" + Fixed(g, 16, 8) else if last then "0x0" else ""
  }

  /** Groups from the top. Without needcomma, nothing is printed yet, and zero groups are skipped. */
  function Printed(gs: seq<nat>, needcomma: bool): string {
    if gs == [] then ""
    else
      var text := Group(gs[0], |gs| == 1);
      (if needcomma then "," + text else text) + Printed(gs[1..], needcomma || gs[0] != 0)
  }

  function HexText(ws: seq<Word>, inf: bool): string {
    var text := (if inf then INFINITE_PREFIX else "")
                + Printed(GroupsOf(ws, Trimmed(ws, if inf then Full() else Zero())), inf);
    if text == "" then "0x0" else text
  }

  method TrimTop(s: Bitmap) returns (n: nat)
    requires s.Valid()
    ensures n == Trimmed(s.Stored(), if s.infinite then Full() else Zero())
  {
    var filler := if s.infinite then Full() else Zero();
    n := s.ulongsCount;
    while n > 0 && s.ulongs[n - 1] == filler
      invariant n <= s.ulongsCount
      invariant Trimmed(s.Stored(), filler) == Trimmed(s.ulongs[..n], filler)
    {
      assert s.ulongs[..n][..n - 1] == s.ulongs[..n - 1];
      n := n - 1;
    }
  }

  /** The groups still to print: at most one in the accumulator, then those of the words left. */
  ghost function Pending(ws: seq<Word>, left: nat, accum: Word, accumed: nat): seq<nat>
    requires left <= |ws|
  {
    (if accumed == 0 then [] else if accumed == 32 then [High(accum)] else [High(accum), Low(accum)]) +
    GroupsOf(ws, left)
  }

  lemma Refilled(ws: seq<Word>, left: nat, accum: Word)
    requires left <= |ws|
    ensures Pending(ws, left, accum, 0) == GroupsOf(ws, left)
    ensures left > 0 ==> Pending(ws, left, accum, 0) == Pending(ws, left - 1, ws[left - 1], 64)
  {
    assert Pending(ws, left, accum, 0) == GroupsOf(ws, left);
  }

  lemma ShiftedOut(ws: seq<Word>, left: nat, accum: Word, accumed: nat)
    requires left <= |ws| && (accumed == 32 || accumed == 64)
    ensures var gs := Pending(ws, left, accum, accumed);
            gs != [] && gs[0] == High(accum) && gs[1..] == Pending(ws, left, Shl(accum, 32), accumed - 32)
    ensures |Pending(ws, left, accum, accumed)| == 1 <==> left == 0 && accumed == 32
  {
    HighHalf(accum);
  }

  function Followed(text: string, gs: seq<nat>, needcomma: bool): string {
    text + Printed(gs, needcomma)
  }

  /** What one turn prints. */
  method PrintGroup(accum: Word, last: bool, needcomma: bool, text: string, ghost gs: seq<nat>)
    returns (text': string, needcomma': bool)
    requires gs != [] && gs[0] == High(accum) && (last <==> |gs| == 1)
    ensures Followed(text', gs[1..], needcomma') == Followed(text, gs, needcomma)
  {
    HighHalf(accum);
    var piece := "";
    needcomma' := needcomma;
    if BitAnd(accum, HighMask()) != Zero() {
      piece := (if needcomma then ",0x" else "0x") + Fixed(ToNat(Shr(BitAnd(accum, HighMask()), 32)), 16, 8);
      needcomma' := true;
    } else if last {
      piece := if needcomma then ",0x0" else "0x0";
    } else if needcomma {
      piece := ",";
    }
    PieceIsGroup(gs, needcomma, piece);
    Regroup(text, piece, Printed(gs[1..], needcomma'));
    text' := text + piece;
  }

  lemma Regroup(a: string, b: string, c: string)
    ensures (a + b) + c == a + (b + c)
  {
  }

  method RefillIfEmpty(s: Bitmap, left: nat, accum: Word, accumed: nat)
    returns (left': nat, accum': Word, accumed': nat)
    requires s.Valid() && left <= s.ulongsCount && (accumed == 0 || accumed == 32) && (left > 0 || accumed > 0)
    ensures left' <= s.ulongsCount && (accumed' == 32 || accumed' == 64)
    ensures 2 * left' + accumed' / 32 == 2 * left + accumed / 32
    ensures Pending(s.Stored(), left', accum', accumed') == Pending(s.Stored(), left, accum, accumed)
  {
    left', accum', accumed' := left, accum, accumed;
    if accumed == 0 {
      Refilled(s.Stored(), left, accum);
      left', accum', accumed' := left - 1, s.ulongs[left - 1], 64;
    }
  }

  /** One turn: the accumulator is refilled if it is empty, and its upper half printed. */
  method PrintHalf(s: Bitmap, left: nat, accum: Word, accumed: nat, needcomma: bool, text: string)
    returns (left': nat, accum': Word, accumed': nat, needcomma': bool, text': string)
    requires s.Valid() && left <= s.ulongsCount && (accumed == 0 || accumed == 32) && (left > 0 || accumed > 0)
    ensures left' <= s.ulongsCount && (accumed' == 0 || accumed' == 32) &&
            2 * left' + accumed' / 32 < 2 * left + accumed / 32
    ensures Followed(text', Pending(s.Stored(), left', accum', accumed'), needcomma') ==
            Followed(text, Pending(s.Stored(), left, accum, accumed), needcomma)
  {
    left', accum', accumed' := RefillIfEmpty(s, left, accum, accumed);
    ghost var gs := Pending(s.Stored(), left', accum', accumed');
    ShiftedOut(s.Stored(), left', accum', accumed');
    text', needcomma' := PrintGroup(accum', left' == 0 && accumed' == 32, needcomma, text, gs);
    accum', accumed' := Shl(accum', 32), accumed' - 32;
  }

  method PrintHex(s: Bitmap) returns (text: string)
    requires s.Valid()
    ensures text == HexText(s.Stored(), s.infinite)
  {
    ghost var ws := s.Stored();
    var needcomma := s.infinite;
    text := if s.infinite then INFINITE_PREFIX else "";
    var left: nat := TrimTop(s);
    var accum := Zero();
    var accumed: nat := 0;
    ghost var target := Followed(text, GroupsOf(ws, left), needcomma);
    Refilled(ws, left, accum);
    while left > 0 || accumed > 0
      invariant left <= |ws| && (accumed == 0 || accumed == 32)
      invariant Followed(text, Pending(ws, left, accum, accumed), needcomma) == target
      decreases 2 * left + accumed / 32
    {
      left, accum, accumed, needcomma, text := PrintHalf(s, left, accum, accumed, needcomma, text);
    }
    Refilled(ws, left, accum);
    if text == "" {
      text := "0x0";
    }
  }

  lemma PieceIsGroup(gs: seq<nat>, needcomma: bool, piece: string)
    requires gs != []
    requires piece == if gs[0] != 0 then (if needcomma then ",0x" else "0x") + Fixed(gs[0], 16, 8)
                      else if |gs| == 1 then if needcomma then ",0x0" else "0x0"
                      else if needcomma then "," else ""
    ensures Printed(gs, needcomma) == piece + Printed(gs[1..], needcomma || gs[0] != 0)
  {
    assert "," + ("0x" + Fixed(gs[0], 16, 8)) == ",0x" + Fixed(gs[0], 16, 8);
    assert "," + "0x0" == ",0x0" && "," + "" == ",";
  }

  // ----- Parsing.

  function Commas(text: string): nat {
    if text == "" then 0 else (if text[0] == ',' then 1 else 0) + Commas(text[1..])
  }

  datatype Parse =
    | Groups(vals: seq<nat>)  // as many as expected, from the top
    | Short                   // the text ends after a comma
    | Malformed
    | Aborted                 // more groups than expected: the assertion in the loop fails

  function Prepend(v: nat, p: Parse): Parse {
    if p.Groups? then Groups([v] + p.vals) else p
  }

  /** strtoul for base 16: the value of the number at the beginning, and how many characters it takes. */
  type Reader = string -> (nat, nat)

  ghost predicate WithinText(strtoul: Reader) {
    forall text :: strtoul(text).1 <= |text|
  }

  function ParseGroups(strtoul: Reader, text: string, count: nat): Parse
    decreases |text|
  {
    if text == "" then Short
    else if count == 0 then Aborted
    else
      var (val, next) := strtoul(text);
      if next < |text| && text[next] == ',' then Prepend(val, ParseGroups(strtoul, text[next + 1..], count - 1))
      else if next < |text| || count > 1 then Malformed
      else Groups([val])
  }

  /** Group number c, counted from the least significant one; 0 above the top. */
  function GroupAt(vals: seq<nat>, total: nat, c: nat): nat {
    if c < total && total - 1 - c < |vals| then vals[total - 1 - c] else 0
  }

  function WordsOf(vals: seq<nat>): (ws: seq<Word>)
    ensures |ws| == (|vals| + 1) / 2
  {
    seq((|vals| + 1) / 2, k requires 0 <= k => Joined(GroupAt(vals, |vals|, 2 * k + 1), GroupAt(vals, |vals|, 2 * k)))
  }

  datatype Reading = Everything | Finished(vals: seq<nat>, inf: bool) | Failure(why: Parse)

  function ReadingOf(p: Parse, inf: bool): Reading {
    if p.Groups? then Finished(p.vals, inf) else Failure(p)
  }

  function ReadHex(strtoul: Reader, text: string): Reading
    requires text != ""
  {
    var count := 1 + Commas(text[1..]);
    if INFINITE_PREFIX <= text then
      if |text| == 7 || text[7] != ',' then Everything
      else
        ReadingOf(ParseGroups(strtoul, text[8..], count - 1), true)
    else
      ReadingOf(ParseGroups(strtoul, text, count), false)
  }

  ghost predicate Understood(r: Reading, s: iset<nat>) {
    match r
    case Everything => forall i: nat :: i in s
    case Finished(vals, inf) => s == Denote(WordsOf(vals), inf)
    case Failure(why) => why == Malformed ==> s == iset{}
  }

  method CountGroups(text: string) returns (count: nat)
    requires text != ""
    ensures count == 1 + Commas(text[1..])
  {
    count := 1;
    var i := 1;
    while i < |text|
      invariant 1 <= i <= |text| && count + Commas(text[i..]) == 1 + Commas(text[1..])
    {
      if text[i] == ',' {
        count := count + 1;
      }
      i := i + 1;
    }
  }

  method ScanHex(strtoul: Reader, s: Bitmap, text: string) returns (ok: bool)
    requires s.Valid() && text != "" && WithinText(strtoul)
    modifies s
    ensures s.Valid() && Understood(ReadHex(strtoul, text), s.Set())
    ensures ok <==> !ReadHex(strtoul, text).Failure? || ReadHex(strtoul, text).why.Short?
  {
    var count := CountGroups(text);
    ReadHexCases(strtoul, text, count);
    if INFINITE_PREFIX <= text {
      if |text| == 7 || text[7] != ',' {
        s.Fill();
        return true;
      }
      ok := ScanTail(strtoul, s, text[8..], count - 1, true);
    } else {
      ok := ScanTail(strtoul, s, text, count, false);
    }
  }

  lemma ReadHexCases(strtoul: Reader, text: string, count: nat)
    requires text != "" && count == 1 + Commas(text[1..])
    ensures INFINITE_PREFIX <= text && (|text| == 7 || text[7] != ',') ==> ReadHex(strtoul, text) == Everything
    ensures INFINITE_PREFIX <= text && |text| > 7 && text[7] == ',' ==>
              count > 1 && ReadHex(strtoul, text) == ReadingOf(ParseGroups(strtoul, text[8..], count - 1), true)
    ensures !(INFINITE_PREFIX <= text) ==> ReadHex(strtoul, text) == ReadingOf(ParseGroups(strtoul, text, count), false)
  {
    if INFINITE_PREFIX <= text && |text| > 7 && text[7] == ',' {
      CommasInPrefix(text);
    }
  }

  /** The groups behind the prefix, if there is one. */
  method ScanTail(strtoul: Reader, s: Bitmap, text: string, count: nat, infinite: bool) returns (ok: bool)
    requires s.Valid() && WithinText(strtoul) && count > 0
    modifies s
    ensures s.Valid() && Understood(ReadingOf(ParseGroups(strtoul, text, count), infinite), s.Set())
    ensures ok <==> ParseGroups(strtoul, text, count).Groups? || ParseGroups(strtoul, text, count).Short?
  {
    s.ResetByUlongs((count + 1) / 2);
    s.infinite := false;
    var outcome := ScanGroups(strtoul, s, text, count);
    if outcome == Bad {
      s.Clear();
      return false;
    }
    if outcome == Abort {
      return false;
    }
    s.infinite := infinite;
    return true;
  }

  lemma {:induction false} CommasAppend(a: string, b: string)
    ensures Commas(a + b) == Commas(a) + Commas(b)
  {
    if a == "" {
      assert a + b == b;
    } else {
      CommasAppend(a[1..], b);
      assert (a + b)[1..] == a[1..] + b;
    }
  }

  lemma CommasInPrefix(text: string)
    requires INFINITE_PREFIX <= text && |text| > 7 && text[7] == ','
    ensures Commas(text[1..]) == 1 + Commas(text[8..])
  {
    assert text[1..] == "xf...f," + text[8..];
    CommasAppend("xf...f,", text[8..]);
    CommasAppend("xf...f", ",");
    CommasAppend("xf.", "..f");
    assert "xf..." + "f" == "xf...f" && "xf...f" + "," == "xf...f,";
  }

  datatype Outcome = Complete | Cut | Bad | Abort

  function OutcomeOf(p: Parse): Outcome {
    match p
    case Groups(_) => Complete
    case Short => Cut
    case Malformed => Bad
    case Aborted => Abort
  }

  function Extended(done: seq<nat>, p: Parse): Parse {
    if p.Groups? then Groups(done + p.vals) else p
  }

  /** The words from k on are those of the groups read. */
  ghost predicate StoredFrom(ws: seq<Word>, done: seq<nat>, total: nat, k: nat)
    decreases |ws| - k
  {
    k < |ws| ==>
      && ws[k] == Joined(GroupAt(done, total, 2 * k + 1), GroupAt(done, total, 2 * k))
      && StoredFrom(ws, done, total, k + 1)
  }

  ghost predicate Accumulated(accum: Word, done: seq<nat>, total: nat, count: nat) {
    accum == if count % 2 == 1 then Shl(FromNat(GroupAt(done, total, count)), 32) else Zero()
  }

  /** Between turns. */
  ghost predicate Held(ws: seq<Word>, accum: Word, done: seq<nat>, total: nat, count: nat) {
    |done| + count == total && StoredFrom(ws, done, total, (count + 1) / 2) && Accumulated(accum, done, total, count)
  }

  lemma GroupAfter(done: seq<nat>, val: nat, total: nat, count: nat, c: nat)
    requires count > 0 && |done| + count == total && c >= count - 1
    ensures GroupAt(done + [val], total, c) == if c < count then val else GroupAt(done, total, c)
  {
  }

  lemma {:induction false} StoredStays(
    ws: seq<Word>, ws': seq<Word>, done: seq<nat>, val: nat, total: nat, count: nat, k: nat)
    requires count > 0 && |done| + count == total && count <= 2 * k && StoredFrom(ws, done, total, k)
    requires |ws'| == |ws| && forall j :: k <= j < |ws| ==> ws'[j] == ws[j]
    ensures StoredFrom(ws', done + [val], total, k)
    decreases |ws| - k
  {
    if k < |ws| {
      GroupAfter(done, val, total, count, 2 * k + 1);
      GroupAfter(done, val, total, count, 2 * k);
      StoredStays(ws, ws', done, val, total, count, k + 1);
    }
  }

  /** What one turn adds: an upper group waits in the accumulator for its lower one. */
  lemma UpperGroup(ws: seq<Word>, accum: Word, done: seq<nat>, val: nat, total: nat, count: nat)
    requires count > 0 && count % 2 == 0 && Held(ws, accum, done, total, count)
    ensures Held(ws, BitOr(accum, Shl(FromNat(val), 32)), done + [val], total, count - 1)
  {
    TailWords(Shl(FromNat(val), 32));
    GroupAfter(done, val, total, count, count - 1);
    StoredStays(ws, ws, done, val, total, count, count / 2);
  }

  lemma LowerGroup(ws: seq<Word>, accum: Word, done: seq<nat>, val: nat, total: nat, count: nat)
    requires count % 2 == 1 && |ws| == (total + 1) / 2 && Held(ws, accum, done, total, count)
    ensures Held(ws[count / 2 := BitOr(accum, Shl(FromNat(val), 0))], Zero(), done + [val], total, count - 1)
  {
    var k := count / 2;
    var ws' := ws[k := BitOr(accum, Shl(FromNat(val), 0))];
    GroupAfter(done, val, total, count, count);
    GroupAfter(done, val, total, count, count - 1);
    WordExt(Shl(FromNat(val), 0), FromNat(val));
    StoredStays(ws, ws', done, val, total, count, k + 1);
  }

  /** The effect of one group on the accumulator and the words. */
  method TakeGroup(s: Bitmap, accum: Word, val: nat, count: nat, total: nat, ghost done: seq<nat>)
    returns (accum': Word)
    requires s.Valid() && s.ulongsCount == (total + 1) / 2 && count > 0 && Held(s.Stored(), accum, done, total, count)
    modifies s`ulongs
    ensures s.Valid() && Held(s.Stored(), accum', done + [val], total, count - 1)
  {
    accum' := BitOr(accum, Shl(FromNat(val), if (count - 1) % 2 == 1 then 32 else 0));
    if (count - 1) % 2 == 0 {
      LowerGroup(s.Stored(), accum, done, val, total, count);
      ghost var before := s.Stored();
      s.ulongs := s.ulongs[(count - 1) / 2 := accum'];
      assert s.Stored() == before[count / 2 := accum'];
      accum' := Zero();
    } else {
      UpperGroup(s.Stored(), accum, done, val, total, count);
    }
  }

  lemma NothingAccumulated(total: nat)
    ensures Accumulated(Zero(), [], total, total)
  {
    ZeroBits(64);
    WordExt(Shl(FromNat(0), 32), Zero());
  }

  lemma AtStart(strtoul: Reader, text: string, ws: seq<Word>, total: nat)
    requires |ws| == (total + 1) / 2
    ensures Held(ws, Zero(), [], total, total) &&
            ParseFrom(strtoul, text, [], 0, total) == ParseGroups(strtoul, text, total)
  {
    NothingAccumulated(total);
    assert text[0..] == text;
  }

  /** The parse of the whole text, from a position with `done` behind it. */
  ghost function ParseFrom(strtoul: Reader, text: string, done: seq<nat>, current: nat, count: nat): Parse
    requires current <= |text|
  {
    Extended(done, ParseGroups(strtoul, text[current..], count))
  }

  lemma ExtendedPrepend(done: seq<nat>, val: nat, p: Parse)
    ensures Extended(done, Prepend(val, p)) == Extended(done + [val], p)
  {
    assert p.Groups? ==> done + ([val] + p.vals) == done + [val] + p.vals;
  }

  lemma OneGroupMore(strtoul: Reader, text: string, done: seq<nat>, current: nat, count: nat, val: nat, consumed: nat)
    requires current < |text| && count > 0 && strtoul(text[current..]) == (val, consumed)
    ensures
      var next := current + consumed;
      ParseFrom(strtoul, text, done, current, count) ==
      if next < |text| && text[next] == ',' then ParseFrom(strtoul, text, done + [val], next + 1, count - 1)
      else if next < |text| || count > 1 then Malformed
      else Groups(done + [val])
  {
    var next := current + consumed;
    if next < |text| && text[next] == ',' {
      assert text[current..][consumed + 1..] == text[next + 1..];
      ExtendedPrepend(done, val, ParseGroups(strtoul, text[next + 1..], count - 1));
    }
  }

  /** One turn of the main loop: a group is read and stored, and what follows it decides. */
  method OneTurn(
    strtoul: Reader, s: Bitmap, text: string, current: nat, count: nat, accum: Word, total: nat, ghost done: seq<nat>)
    returns (outcome: Outcome, current': nat, accum': Word, ghost done': seq<nat>)
    requires s.Valid() && s.ulongsCount == (total + 1) / 2 && Held(s.Stored(), accum, done, total, count)
    requires count > 0 && current < |text| && WithinText(strtoul)
    modifies s`ulongs
    ensures s.Valid() && Held(s.Stored(), accum', done', total, count - 1)
    ensures outcome == Cut ==>
              current < current' <= |text| &&
              ParseFrom(strtoul, text, done', current', count - 1) == ParseFrom(strtoul, text, done, current, count)
    ensures outcome == Bad ==> ParseFrom(strtoul, text, done, current, count) == Malformed
    ensures outcome == Complete ==> count == 1 && ParseFrom(strtoul, text, done, current, count) == Groups(done')
    ensures outcome != Abort
  {
    var (val, consumed) := strtoul(text[current..]);
    OneGroupMore(strtoul, text, done, current, count, val, consumed);
    accum' := TakeGroup(s, accum, val, count, total, done);
    done' := done + [val];
    var next := current + consumed;
    current' := next;
    if next < |text| && text[next] == ',' {
      current' := next + 1;
      outcome := Cut;
    } else if next < |text| || count > 1 {
      outcome := Bad;
    } else {
      outcome := Complete;
    }
  }

  /** The main loop: one group a turn, a word every other turn. */
  method ScanGroups(strtoul: Reader, s: Bitmap, text: string, total: nat) returns (outcome: Outcome)
    requires WithinText(strtoul) && s.Valid() && total > 0 && s.ulongsCount == (total + 1) / 2
    modifies s`ulongs
    ensures s.Valid() && outcome == OutcomeOf(ParseGroups(strtoul, text, total))
    ensures outcome == Complete ==> s.Stored() == WordsOf(ParseGroups(strtoul, text, total).vals)
  {
    var current, count, accum := 0, total, Zero();
    ghost var done: seq<nat> := [];
    AtStart(strtoul, text, s.Stored(), total);
    while current < |text|
      invariant s.Valid() && current <= |text| &&
                ParseFrom(strtoul, text, done, current, count) == ParseGroups(strtoul, text, total)
      invariant Held(s.Stored(), accum, done, total, count)
      decreases |text| - current
    {
      if count == 0 {
        return Abort;
      }
      outcome, current, accum, done := OneTurn(strtoul, s, text, current, count, accum, total, done);
      count := count - 1;
      if outcome == Complete {
        AllStored(s.Stored(), accum, done, total);
      }
      if outcome != Cut {
        return;
      }
    }
    return Cut;
  }

  lemma {:induction false} StoredAt(ws: seq<Word>, vals: seq<nat>, k: nat, j: nat)
    requires StoredFrom(ws, vals, |vals|, k) && k <= j < |ws|
    ensures ws[j] == Joined(GroupAt(vals, |vals|, 2 * j + 1), GroupAt(vals, |vals|, 2 * j))
    decreases |ws| - k
  {
    if k < j {
      StoredAt(ws, vals, k + 1, j);
    }
  }

  lemma AllStored(ws: seq<Word>, accum: Word, vals: seq<nat>, total: nat)
    requires |ws| == (total + 1) / 2 && Held(ws, accum, vals, total, 0)
    ensures ws == WordsOf(vals)
  {
    forall k | 0 <= k < |ws| ensures ws[k] == WordsOf(vals)[k] {
      StoredAt(ws, vals, 0, k);
    }
  }

  // ----- Reading back what was printed.

  ghost predicate Small(gs: seq<nat>) {
    forall k :: 0 <= k < |gs| ==> gs[k] < Power(16, 8)
  }

  lemma StrtoulComma(text: string)
    requires text != "" && text[0] == ','
    ensures Strtoul(text, 16) == (0, 0)
  {
    assert text[0..] == text;
  }

  /** A group is read back, and ends where it should. */
  lemma GroupReadBack(g: nat, tail: string)
    requires g < Power(16, 8) && (tail == "" || tail[0] == ',')
    ensures Strtoul(Group(g, tail == "") + tail, 16) == (g, |Group(g, tail == "")|)
  {
    PowersAgree();
    if g != 0 {
      StrtoulPrefixed(g, 8, tail);
    } else if tail == "" {
      assert Power(16, 1) == 16 && Fixed(0, 16, 0) == "" && Fixed(0, 16, 1) == "0";
      assert "0x" + "0" + "" == "0x0" + "";
      StrtoulPrefixed(0, 1, "");
    } else {
      assert "" + tail == tail;
      StrtoulComma(tail);
    }
  }

  /** Groups as they appear after a comma, or at the beginning. */
  function TextOf(g: nat, gs: seq<nat>): string {
    Group(g, gs == []) + Printed(gs, true)
  }

  lemma PrintedAfterComma(gs: seq<nat>)
    requires gs != []
    ensures Printed(gs, true) == "," + TextOf(gs[0], gs[1..])
  {
    Regroup(",", Group(gs[0], |gs| == 1), Printed(gs[1..], true));
  }

  lemma AfterComma(a: string, b: string)
    ensures (a + ("," + b))[|a|] == ',' && (a + ("," + b))[|a| + 1..] == b
  {
  }

  ghost predicate ReadsGroup(strtoul: Reader, g: nat, tail: string) {
    strtoul(Group(g, tail == "") + tail) == (g, |Group(g, tail == "")|)
  }

  /** What the round trip needs of strtoul. */
  ghost predicate ReadsGroups(strtoul: Reader) {
    forall g: nat, tail: string :: g < Power(16, 8) && (tail == "" || tail[0] == ',') ==> ReadsGroup(strtoul, g, tail)
  }

  lemma StrtoulReadsGroups()
    ensures WithinText(text => Strtoul(text, 16)) && ReadsGroups(text => Strtoul(text, 16))
  {
    var strtoul: Reader := text => Strtoul(text, 16);
    forall g: nat, tail: string | g < Power(16, 8) && (tail == "" || tail[0] == ',')
      ensures ReadsGroup(strtoul, g, tail)
    {
      GroupReadBack(g, tail);
    }
  }

  lemma OneReadsBack(strtoul: Reader, g: nat, text: string)
    requires text != "" && strtoul(text) == (g, |text|)
    ensures ParseGroups(strtoul, text, 1) == Groups([g])
  {
  }

  lemma ParseMore(strtoul: Reader, text: string, val: nat, n: nat, rest: string, count: nat)
    requires n < |text| && text[n] == ',' && text[n + 1..] == rest && strtoul(text) == (val, n) && count > 0
    ensures ParseGroups(strtoul, text, count) == Prepend(val, ParseGroups(strtoul, rest, count - 1))
  {
  }

  lemma MoreReadBack(strtoul: Reader, vals: seq<nat>, text: string, n: nat, rest: string)
    requires n < |text| && text[n] == ',' && text[n + 1..] == rest && vals != [] && strtoul(text) == (vals[0], n)
    requires ParseGroups(strtoul, rest, |vals| - 1) == Groups(vals[1..])
    ensures ParseGroups(strtoul, text, |vals|) == Groups(vals)
  {
    ParseMore(strtoul, text, vals[0], n, rest, |vals|);
    assert [vals[0]] + vals[1..] == vals;
  }

  lemma LastGroupReadBack(strtoul: Reader, g: nat)
    requires g < Power(16, 8) && ReadsGroups(strtoul)
    ensures ParseGroups(strtoul, TextOf(g, []), 1) == Groups([g])
  {
    assert ReadsGroup(strtoul, g, "");
    assert TextOf(g, []) == Group(g, true) + "" == Group(g, true);
    OneReadsBack(strtoul, g, TextOf(g, []));
  }

  lemma {:induction false} GroupsReadBack(strtoul: Reader, g: nat, gs: seq<nat>)
    requires g < Power(16, 8) && Small(gs) && ReadsGroups(strtoul)
    ensures ParseGroups(strtoul, TextOf(g, gs), 1 + |gs|) == Groups([g] + gs)
    decreases |gs|
  {
    if gs == [] {
      LastGroupReadBack(strtoul, g);
    } else {
      var rest := TextOf(gs[0], gs[1..]);
      GroupsReadBack(strtoul, gs[0], gs[1..]);
      assert [gs[0]] + gs[1..] == gs;
      PrintedAfterComma(gs);
      assert ReadsGroup(strtoul, g, "," + rest);
      AfterComma(Group(g, false), rest);
      MoreReadBack(strtoul, [g] + gs, TextOf(g, gs), |Group(g, false)|, rest);
    }
  }

  lemma {:induction false} NoCommas(s: string)
    requires Digits(s, 16)
    ensures Commas(s) == 0
  {
    if s != "" {
      NoCommas(s[1..]);
    }
  }

  lemma GroupHasNoComma(g: nat, last: bool)
    ensures Commas(Group(g, last)) == 0
  {
    if g != 0 {
      FixedDigits(g, 16, 8);
      NoCommas(Fixed(g, 16, 8));
      CommasAppend("0x", Fixed(g, 16, 8));
      CommasAppend("0", "x");
      assert "0" + "x" == "0x";
    } else if last {
      CommasAppend("0", "x0");
      CommasAppend("x", "0");
      assert "0" + "x0" == "0x0" && "x" + "0" == "x0";
    }
  }

  lemma {:induction false} CommasInText(g: nat, gs: seq<nat>)
    ensures Commas(TextOf(g, gs)) == |gs|
    decreases |gs|
  {
    GroupHasNoComma(g, gs == []);
    CommasAppend(Group(g, gs == []), Printed(gs, true));
    if gs != [] {
      PrintedAfterComma(gs);
      CommasInText(gs[0], gs[1..]);
      CommasAppend(",", TextOf(gs[0], gs[1..]));
    }
  }

  /** Nothing of a text that starts with a non-zero group, or is a lone zero, looks like the infinite prefix
      or like an empty group. */
  lemma TextStart(g: nat, gs: seq<nat>)
    requires g != 0 || gs == []
    ensures var text := TextOf(g, gs); text != "" && !(INFINITE_PREFIX <= text) && Commas(text[1..]) == |gs|
  {
    CommasInText(g, gs);
    var text := TextOf(g, gs);
    if g != 0 {
      FixedDigits(g, 16, 8);
      assert text[3] == Fixed(g, 16, 8)[1];
    }
  }

  lemma {:induction false} GroupsAt(ws: seq<Word>, n: nat, k: nat)
    requires k < n <= |ws|
    ensures GroupAt(GroupsOf(ws, n), 2 * n, 2 * k) == Low(ws[k])
    ensures GroupAt(GroupsOf(ws, n), 2 * n, 2 * k + 1) == High(ws[k])
  {
    if k < n - 1 {
      GroupsAt(ws, n - 1, k);
    }
  }

  lemma {:induction false} GroupsAreSmall(ws: seq<Word>, n: nat)
    requires n <= |ws|
    ensures Small(GroupsOf(ws, n))
  {
    if n > 0 {
      GroupsAreSmall(ws, n - 1);
      JoinedHalves(ws[n - 1]);
    }
  }

  lemma WithoutTop(gs: seq<nat>, c: nat)
    requires gs != [] && gs[0] == 0
    ensures GroupAt(gs[1..], |gs| - 1, c) == GroupAt(gs, |gs|, c)
  {
  }

  lemma WordsBackAt(ws: seq<Word>, n: nat, gs: seq<nat>, k: nat)
    requires k < n <= |ws|
    requires gs == GroupsOf(ws, n) || (GroupsOf(ws, n)[0] == 0 && gs == GroupsOf(ws, n)[1..])
    ensures Joined(GroupAt(gs, |gs|, 2 * k + 1), GroupAt(gs, |gs|, 2 * k)) == ws[k]
  {
    GroupsAt(ws, n, k);
    JoinedHalves(ws[k]);
    if gs != GroupsOf(ws, n) {
      WithoutTop(GroupsOf(ws, n), 2 * k);
      WithoutTop(GroupsOf(ws, n), 2 * k + 1);
    }
  }

  /** The groups give the words back, also without the topmost one when that is zero. */
  lemma WordsBack(ws: seq<Word>, n: nat, gs: seq<nat>)
    requires 0 < n <= |ws|
    requires gs == GroupsOf(ws, n) || (GroupsOf(ws, n)[0] == 0 && gs == GroupsOf(ws, n)[1..])
    ensures WordsOf(gs) == ws[..n]
  {
    forall k | 0 <= k < n ensures WordsOf(gs)[k] == ws[k] {
      WordsBackAt(ws, n, gs, k);
    }
  }

  lemma TrimmedDenotes(ws: seq<Word>, inf: bool)
    ensures Denote(ws[..Trimmed(ws, if inf then Full() else Zero())], inf) == Denote(ws, inf)
  {
    var n := Trimmed(ws, if inf then Full() else Zero());
    DenoteExt(ws[..n], inf, ws, inf);
  }

  lemma FinishedUnderstood(r: Reading, gs: seq<nat>, inf: bool, ws: seq<Word>, n: nat)
    requires r == Finished(gs, inf) && n <= |ws| && WordsOf(gs) == ws[..n]
    requires Denote(ws[..n], inf) == Denote(ws, inf)
    ensures !r.Failure? && forall s: iset<nat> :: Understood(r, s) <==> s == Denote(ws, inf)
  {
  }

  /** The text of a set, finite or not, is understood as that set. */
  lemma HexRoundTrip(strtoul: Reader, ws: seq<Word>, inf: bool)
    requires ReadsGroups(strtoul)
    ensures HexText(ws, inf) != ""
    ensures forall s: iset<nat> :: Understood(ReadHex(strtoul, HexText(ws, inf)), s) <==> s == Denote(ws, inf)
    ensures !ReadHex(strtoul, HexText(ws, inf)).Failure?
  {
    var n := Trimmed(ws, if inf then Full() else Zero());
    TrimmedDenotes(ws, inf);
    if n == 0 {
      NothingPrinted(strtoul, ws, inf);
    } else if inf {
      InfinitePrinted(strtoul, ws, n);
      WordsBack(ws, n, GroupsOf(ws, n));
      FinishedUnderstood(ReadHex(strtoul, HexText(ws, inf)), GroupsOf(ws, n), inf, ws, n);
    } else {
      var gs := FinitePrinted(strtoul, ws, n);
      WordsBack(ws, n, gs);
      FinishedUnderstood(ReadHex(strtoul, HexText(ws, inf)), gs, inf, ws, n);
    }
  }

  lemma NothingPrinted(strtoul: Reader, ws: seq<Word>, inf: bool)
    requires ReadsGroups(strtoul)
    requires Trimmed(ws, if inf then Full() else Zero()) == 0
    ensures HexText(ws, inf) == if inf then INFINITE_PREFIX else "0x0"
    ensures if inf then ReadHex(strtoul, HexText(ws, inf)) == Everything
            else ReadHex(strtoul, HexText(ws, inf)) == Finished([0], false)
    ensures forall i: nat :: i in Denote(ws, inf) <==> inf
    ensures Denote(WordsOf([0]), false) == iset{}
  {
    UniformDenotes(ws, inf);
    if !inf {
      assert TextOf(0, []) == "0x0" + "" == "0x0";
      GroupsReadBack(strtoul, 0, []);
      TextStart(0, []);
    }
    ZeroBits(64);
    WordExt(Joined(0, 0), Zero());
    UniformDenotes(WordsOf([0]), false);
  }

  lemma InfinitePrinted(strtoul: Reader, ws: seq<Word>, n: nat)
    requires ReadsGroups(strtoul)
    requires n == Trimmed(ws, Full()) && n > 0
    ensures ReadHex(strtoul, HexText(ws, true)) == Finished(GroupsOf(ws, n), true)
  {
    var gs := GroupsOf(ws, n);
    GroupsAreSmall(ws, n);
    assert [gs[0]] + gs[1..] == gs;
    PrintedAfterComma(gs);
    AfterPrefix(TextOf(gs[0], gs[1..]));
    CommasInPrefix(HexText(ws, true));
    CommasInText(gs[0], gs[1..]);
    GroupsReadBack(strtoul, gs[0], gs[1..]);
  }

  lemma AfterPrefix(tail: string)
    ensures var text := INFINITE_PREFIX + ("," + tail);
            INFINITE_PREFIX <= text && |text| > 7 && text[7] == ',' && text[8..] == tail
  {
  }

  lemma FinitePrinted(strtoul: Reader, ws: seq<Word>, n: nat) returns (gs: seq<nat>)
    requires ReadsGroups(strtoul)
    requires n == Trimmed(ws, Zero()) && n > 0
    ensures gs == GroupsOf(ws, n) || (GroupsOf(ws, n)[0] == 0 && gs == GroupsOf(ws, n)[1..])
    ensures HexText(ws, false) != "" && ReadHex(strtoul, HexText(ws, false)) == Finished(gs, false)
  {
    var all := GroupsOf(ws, n);
    NotBothZero(ws[n - 1]);
    gs := if all[0] != 0 then all else all[1..];
    GroupsAreSmall(ws, n);
    FirstPrinted(all);
    assert [gs[0]] + gs[1..] == gs;
    TextStart(gs[0], gs[1..]);
    GroupsReadBack(strtoul, gs[0], gs[1..]);
    assert "" + Printed(all, false) == Printed(all, false);
  }

  lemma NotBothZero(w: Word)
    requires w != Zero()
    ensures High(w) != 0 || Low(w) != 0
  {
    JoinedHalves(w);
    ZeroBits(64);
    WordExt(Joined(0, 0), Zero());
  }

  lemma FirstPrinted(gs: seq<nat>)
    requires |gs| >= 2 && (gs[0] != 0 || gs[1] != 0)
    ensures Printed(gs, false) == if gs[0] != 0 then TextOf(gs[0], gs[1..]) else TextOf(gs[1], gs[1..][1..])
  {
    if gs[0] == 0 {
      assert "" + Printed(gs[1..], false) == Printed(gs[1..], false);
    }
  }
}
