/** Bitmaps as lists of ranges: hwloc_bitmap_list_snprintf and hwloc_bitmap_list_sscanf
    (src/hwloc/hwloc/bitmap.c). */
module BitmapList {
  import opened Words
  import opened Numerals
  import opened BitSets
  import opened Bitmaps
  import opened BitmapQueries
  import opened BitmapHex

  /** [begin, end], or [begin, infinity) when end is -1. */
  datatype Run = Run(begin: nat, end: int)

  ghost predicate InRuns(runs: seq<Run>, i: nat) {
    exists k :: 0 <= k < |runs| && InRange(runs[k].begin, runs[k].end, i)
  }

  /** The maximal runs, in order: between any two there is a gap, and at most the last is open. */
  predicate Maximal(runs: seq<Run>) {
    && (forall k :: 0 <= k < |runs| ==> runs[k].begin <= runs[k].end || (runs[k].end == -1 && k == |runs| - 1))
    && (forall j, k :: 0 <= j < k < |runs| ==> runs[j].end + 1 < runs[k].begin)
  }

  ghost predicate RunsOf(runs: seq<Run>, s: iset<nat>) {
    Maximal(runs) && forall i: nat :: i in s <==> InRuns(runs, i)
  }

  // ----- Printing.

  function RunText(r: Run): string {
    if r.end == r.begin then Shortest(r.begin, 10)
    else if r.end == -1 then Shortest(r.begin, 10) + "-"
    else if r.end >= 0 then Shortest(r.begin, 10) + ("-" + Shortest(r.end, 10))
    else ""
  }

  function ListText(runs: seq<Run>): string {
    if runs == [] then ""
    else if |runs| == 1 then RunText(runs[0])
    else RunText(runs[0]) + ("," + ListText(runs[1..]))
  }

  lemma {:induction false} ListTextAppend(runs: seq<Run>, r: Run)
    requires runs != []
    ensures ListText(runs + [r]) == ListText(runs) + ("," + RunText(r))
  {
    var all := runs + [r];
    if |runs| == 1 {
      assert all[1..] == [r];
    } else {
      assert all[1..] == runs[1..] + [r];
      ListTextAppend(runs[1..], r);
      Regroup(RunText(runs[0]), "," + ListText(runs[1..]), "," + RunText(r));
      Regroup(",", ListText(runs[1..]), "," + RunText(r));
    }
  }

  /** The runs found so far are those of the members up to prev. */
  ghost predicate FoundUpTo(ws: seq<Word>, inf: bool, runs: seq<Run>, prev: int) {
    && prev >= -1
    && Maximal(runs)
    && (forall k :: 0 <= k < |runs| ==> 0 <= runs[k].begin <= runs[k].end <= prev)
    && (forall i: nat :: i <= prev ==> (Has(ws, inf, i) <==> InRuns(runs, i)))
    && (runs != [] ==> !Has(ws, inf, prev + 1))
  }

  lemma NoMore(ws: seq<Word>, inf: bool, runs: seq<Run>, prev: int)
    requires FoundUpTo(ws, inf, runs, prev) && IsNext(ws, inf, true, prev, -1)
    ensures RunsOf(runs, Denote(ws, inf))
  {
    forall i: nat ensures Has(ws, inf, i) <==> InRuns(runs, i) {
      if i > prev {
        assert !Has(ws, inf, i);
      }
    }
  }

  lemma InRunsAppend(runs: seq<Run>, r: Run, i: nat)
    ensures InRuns(runs + [r], i) <==> InRuns(runs, i) || InRange(r.begin, r.end, i)
  {
    if InRuns(runs, i) {
      var k :| 0 <= k < |runs| && InRange(runs[k].begin, runs[k].end, i);
      assert (runs + [r])[k] == runs[k];
    }
    assert (runs + [r])[|runs|] == r;
  }

  lemma OpenRun(ws: seq<Word>, inf: bool, runs: seq<Run>, prev: int, begin: nat)
    requires FoundUpTo(ws, inf, runs, prev)
    requires IsNext(ws, inf, true, prev, begin) && IsNext(ws, inf, false, begin, -1)
    ensures RunsOf(runs + [Run(begin, -1)], Denote(ws, inf))
  {
    var r := Run(begin, -1);
    assert runs != [] ==> begin != prev + 1;
    forall i: nat ensures Has(ws, inf, i) <==> InRuns(runs + [r], i) {
      InRunsAppend(runs, r, i);
      if prev < i < begin {
        assert !Has(ws, inf, i);
      } else if i > begin {
        assert Has(ws, inf, i);
      }
    }
  }

  lemma ClosedRun(ws: seq<Word>, inf: bool, runs: seq<Run>, prev: int, begin: nat, end: nat)
    requires FoundUpTo(ws, inf, runs, prev)
    requires IsNext(ws, inf, true, prev, begin) && IsNext(ws, inf, false, begin, end)
    ensures FoundUpTo(ws, inf, runs + [Run(begin, end - 1)], end - 1)
  {
    var r := Run(begin, end - 1);
    assert runs != [] ==> begin != prev + 1;
    forall i: nat | i <= end - 1 ensures Has(ws, inf, i) <==> InRuns(runs + [r], i) {
      InRunsAppend(runs, r, i);
      if prev < i < begin {
        assert !Has(ws, inf, i);
      } else if i > begin {
        assert Has(ws, inf, i);
      }
    }
  }

  /** One range, `end` being the next unset index or -1. */
  method AppendRun(text: string, needcomma: bool, begin: nat, end: int, ghost runs: seq<Run>) returns (text': string)
    requires text == ListText(runs) && (needcomma <==> runs != []) && (end == -1 || end > begin)
    ensures text' == ListText(runs + [Run(begin, if end == -1 then -1 else end - 1)])
  {
    var piece := if end == begin + 1 then Shortest(begin, 10)
    else if end == -1 then Shortest(begin, 10) + "-"
    else Shortest(begin, 10) + ("-" + Shortest(end - 1, 10));
    ghost var r := Run(begin, if end == -1 then -1 else end - 1);
    assert piece == RunText(r);
    if needcomma {
      ListTextAppend(runs, r);
      return text + ("," + piece);
    }
    assert runs + [r] == [r];
    return piece;
  }

  /** What the text lists when the run from `begin` is added to it. */
  ghost function WithRun(runs: seq<Run>, begin: nat, end: int): seq<Run> {
    runs + [Run(begin, if end == -1 then -1 else end - 1)]
  }

  /** With the run from `begin` to before `end`, the list is complete, or goes as far as that. */
  lemma RunAdded(ws: seq<Word>, inf: bool, runs: seq<Run>, prev: int, begin: nat, end: int)
    requires FoundUpTo(ws, inf, runs, prev)
    requires IsNext(ws, inf, true, prev, begin) && IsNext(ws, inf, false, begin, end)
    ensures WithRun(runs, begin, end) != []
    ensures end == -1 ==> RunsOf(WithRun(runs, begin, end), Denote(ws, inf))
    ensures end != -1 ==> FoundUpTo(ws, inf, WithRun(runs, begin, end), end - 1) && prev < end - 1 < 64 * |ws|
  {
    if end == -1 {
      OpenRun(ws, inf, runs, prev, begin);
    } else {
      ClosedRun(ws, inf, runs, prev, begin, end);
      FiniteEnd(ws, inf, prev, begin, end);
    }
  }

  /** The next run, if there is one, and its text. */
  method PrintRun(s: Bitmap, prev: int, needcomma: bool, text: string, ghost runs: seq<Run>)
    returns (stop: bool, prev': int, text': string, ghost runs': seq<Run>)
    requires s.Valid() && FoundUpTo(s.Stored(), s.infinite, runs, prev) && text == ListText(runs) &&
             (needcomma <==> runs != [])
    ensures text' == ListText(runs')
    ensures stop ==> RunsOf(runs', s.Set()) && prev' == prev
    ensures !stop ==> runs' != []
    ensures !stop ==> FoundUpTo(s.Stored(), s.infinite, runs', prev') && prev < prev' < 64 * s.ulongsCount
  {
    var begin := NextBit(s, true, prev);
    if begin == -1 {
      NoMore(s.Stored(), s.infinite, runs, prev);
      return true, prev, text, runs;
    }
    stop, prev', text', runs' := PrintFrom(s, prev, begin, needcomma, text, runs);
  }

  method PrintFrom(s: Bitmap, prev: int, begin: nat, needcomma: bool, text: string, ghost runs: seq<Run>)
    returns (stop: bool, prev': int, text': string, ghost runs': seq<Run>)
    requires s.Valid() && FoundUpTo(s.Stored(), s.infinite, runs, prev) && text == ListText(runs)
    requires needcomma <==> runs != []
    requires IsNext(s.Stored(), s.infinite, true, prev, begin)
    ensures text' == ListText(runs') && runs' != []
    ensures stop ==> RunsOf(runs', s.Set()) && prev' == prev
    ensures !stop ==> FoundUpTo(s.Stored(), s.infinite, runs', prev') && prev < prev' < 64 * s.ulongsCount
  {
    var end := NextBit(s, false, begin);
    RunAdded(s.Stored(), s.infinite, runs, prev, begin, end);
    text' := AppendRun(text, needcomma, begin, end, runs);
    runs' := WithRun(runs, begin, end);
    stop := end == -1;
    prev' := if stop then prev else end - 1;
  }

  /** The text lists exactly the maximal runs of the set. */
  method PrintList(s: Bitmap) returns (text: string)
    requires s.Valid()
    ensures exists runs :: RunsOf(runs, s.Set()) && text == ListText(runs)
  {
    var prev, needcomma, stop := -1, false, false;
    ghost var runs: seq<Run> := [];
    text := "";
    while !stop
      invariant text == ListText(runs) && (!stop ==> (needcomma <==> runs != []))
      invariant if stop then RunsOf(runs, s.Set()) else FoundUpTo(s.Stored(), s.infinite, runs, prev)
      invariant prev == -1 || prev < 64 * s.ulongsCount
      decreases 64 * s.ulongsCount - prev, !stop
    {
      stop, prev, text, runs := PrintRun(s, prev, needcomma, text, runs);
      needcomma := true;
    }
  }

  /** The loop ends: above the stored words all bits are alike. */
  lemma FiniteEnd(ws: seq<Word>, inf: bool, prev: int, begin: nat, end: nat)
    requires prev >= -1 && IsNext(ws, inf, true, prev, begin) && IsNext(ws, inf, false, begin, end)
    ensures end - 1 > prev && end <= 64 * |ws|
  {
    assert end > 64 * |ws| ==> Has(ws, inf, end - 1) == Has(ws, inf, end);
  }

  // ----- The list is determined by the set.

  /** The first run begins at the least member and ends before the least non-member above it. */
  lemma FirstRun(runs: seq<Run>, i: nat)
    requires Maximal(runs) && runs != []
    ensures InRuns(runs, runs[0].begin) && (i < runs[0].begin ==> !InRuns(runs, i))
    ensures runs[0].begin <= i && (runs[0].end == -1 || i <= runs[0].end) ==> InRuns(runs, i)
    ensures runs[0].end != -1 ==> !InRuns(runs, runs[0].end + 1)
    ensures InRuns(runs, i) <==> InRange(runs[0].begin, runs[0].end, i) || InRuns(runs[1..], i)
  {
    InRunsTail(runs, i);
    InRunsTail(runs, runs[0].begin);
    if runs[0].end != -1 {
      InRunsTail(runs, runs[0].end + 1);
    }
  }

  lemma InRunsTail(runs: seq<Run>, i: nat)
    requires runs != []
    ensures InRuns(runs, i) <==> InRange(runs[0].begin, runs[0].end, i) || InRuns(runs[1..], i)
  {
    if InRuns(runs[1..], i) {
      var k :| 0 <= k < |runs| - 1 && InRange(runs[1..][k].begin, runs[1..][k].end, i);
      assert runs[k + 1] == runs[1..][k];
    }
    if InRuns(runs, i) {
      var k :| 0 <= k < |runs| && InRange(runs[k].begin, runs[k].end, i);
      assert k > 0 ==> runs[1..][k - 1] == runs[k];
    }
  }

  lemma TailIsAbove(runs: seq<Run>, i: nat)
    requires Maximal(runs) && runs != []
    ensures Maximal(runs[1..])
    ensures InRuns(runs[1..], i) <==> InRuns(runs, i) && runs[0].end != -1 && i > runs[0].end
  {
    InRunsTail(runs, i);
    assert forall k :: 1 <= k < |runs| ==> runs[0].end + 1 < runs[k].begin && runs[1..][k - 1] == runs[k];
  }

  lemma SameFirstRun(a: seq<Run>, b: seq<Run>)
    requires Maximal(a) && Maximal(b) && a != [] && b != []
    requires forall i: nat :: InRuns(a, i) <==> InRuns(b, i)
    ensures a[0] == b[0]
  {
    FirstRun(a, b[0].begin);
    FirstRun(b, a[0].begin);
    assert a[0].begin == b[0].begin;
    if a[0].end != -1 {
      FirstRun(b, a[0].end + 1);
    }
    if b[0].end != -1 {
      FirstRun(a, b[0].end + 1);
    }
  }

  lemma {:induction false} RunsUnique(a: seq<Run>, b: seq<Run>)
    requires Maximal(a) && Maximal(b) && forall i: nat :: InRuns(a, i) <==> InRuns(b, i)
    ensures a == b
    decreases |a|
  {
    if a != [] && b != [] {
      SameFirstRun(a, b);
      forall i: nat ensures InRuns(a[1..], i) <==> InRuns(b[1..], i) {
        TailIsAbove(a, i);
        TailIsAbove(b, i);
      }
      TailIsAbove(a, 0);
      TailIsAbove(b, 0);
      RunsUnique(a[1..], b[1..]);
      assert a == [a[0]] + a[1..] && b == [b[0]] + b[1..];
    } else if a != [] {
      FirstRun(a, 0);
    } else if b != [] {
      FirstRun(b, 0);
    }
  }

  /** The last range is open exactly when the set is infinite. */
  lemma OpenIffInfinite(ws: seq<Word>, inf: bool, runs: seq<Run>)
    requires RunsOf(runs, Denote(ws, inf))
    ensures inf <==> runs != [] && runs[|runs| - 1].end == -1
  {
    if runs != [] {
      var last := runs[|runs| - 1];
      var high := 64 * |ws| + last.begin + if last.end >= 0 then last.end + 1 else 0;
      assert Has(ws, inf, high) <==> inf;
      assert high in Denote(ws, inf) <==> InRuns(runs, high);
      assert last.end == -1 ==> InRange(last.begin, last.end, high);
      assert last.end != -1 ==> forall k :: 0 <= k < |runs| ==> runs[k].end != -1 && runs[k].end <= last.end < high;
    } else {
      assert Has(ws, inf, 64 * |ws|) <==> inf;
      assert 64 * |ws| in Denote(ws, inf) <==> InRuns(runs, 64 * |ws|);
    }
  }

  // ----- Parsing.

  const INT_MAX: nat := 0x7fff_ffff

  /** What the parser makes of a text; numbers above INT_MAX, which it converts to int and unsigned,
      are told apart. */
  datatype List = Ranges(runs: seq<Run>) | NoNumber | TooLarge

  function Skip(text: string): (n: nat)
    ensures n <= |text|
  {
    if text != "" && (text[0] == ',' || text[0] == ' ') then 1 + Skip(text[1..]) else 0
  }

  /** What follows a number, `begin` being the begin of an unfinished range or -1: the range that it
      completes if any, the new `begin`, and whether an open range ends the text. */
  function AfterNumber(begin: int, val: nat, rest: string): (seq<Run>, int, bool)
    requires begin >= -1
  {
    var none: int, started: int := -1, val;
    if begin != -1 then ([Run(begin, val)], none, false)
    else if rest != "" && rest[0] == '-' then
      if |rest| == 1 then ([Run(val, -1)], none, true) else ([], started, false)
    else if rest == "" || rest[0] == ',' || rest[0] == ' ' then ([Run(val, val)], none, false)
    else ([], none, false)
  }

  function AddAll(runs: seq<Run>, list: List): List {
    if list.Ranges? then Ranges(runs + list.runs) else list
  }

  /** strtoul reads with base 0 here. */
  function ReadRanges(strtoul: Reader, text: string, begin: int): List
    requires begin >= -1
    decreases |text|
  {
    if text == "" then Ranges([])
    else
      var from := text[Skip(text)..];
      var (val, n) := strtoul(from);
      if n == 0 then NoNumber
      else if val > INT_MAX then TooLarge
      else
        var rest := if n <= |from| then from[n..] else "";
        var (runs, begin', stop) := AfterNumber(begin, val, rest);
        AddAll(runs, if stop || rest == "" then Ranges([]) else ReadRanges(strtoul, rest[1..], begin'))
  }

  ghost function Members(runs: seq<Run>): iset<nat> {
    iset i: nat | InRuns(runs, i)
  }

  ghost predicate Holds(list: List, s: iset<nat>) {
    match list
    case Ranges(runs) => s == Members(runs)
    case NoNumber => s == iset{}
    case TooLarge => true
  }

  lemma RangeAppended(done: seq<Run>, r: Run)
    requires r.end >= -1
    ensures Members(done + [r]) == Members(done) + Range(r.begin, r.end)
  {
    forall i: nat ensures i in Members(done + [r]) <==> i in Members(done) || InRange(r.begin, r.end, i) {
      InRunsAppend(done, r, i);
    }
  }

  /** What a text stands for, read from some position with `done` behind it. */
  ghost function ReadFrom(strtoul: Reader, text: string, current: nat, begin: int, done: seq<Run>): List
    requires begin >= -1 && current <= |text|
  {
    AddAll(done, ReadRanges(strtoul, text[current..], begin))
  }

  lemma ReadStep(strtoul: Reader, text: string, begin: int, val: nat, n: nat)
    requires begin >= -1 && text != "" && strtoul(text[Skip(text)..]) == (val, n) && Skip(text) + n <= |text|
    ensures ReadRanges(strtoul, text, begin) ==
            if n == 0 then NoNumber
            else if val > INT_MAX then TooLarge
            else
              var rest := text[Skip(text) + n..];
              var (runs, begin', stop) := AfterNumber(begin, val, rest);
              AddAll(runs, if stop || rest == "" then Ranges([]) else ReadRanges(strtoul, rest[1..], begin'))
  {
    assert text[Skip(text)..][n..] == text[Skip(text) + n..];
  }

  lemma NumberThenRest(
    strtoul: Reader, text: string, begin: int, val: nat, n: nat, tail: string, runs: seq<Run>, list: List)
    requires begin >= -1 && text != "" && Skip(text) + n <= |text| && 0 < n && val <= INT_MAX
    requires strtoul(text[Skip(text)..]) == (val, n) && tail == text[Skip(text) + n..]
    requires var (runs', begin', stop) := AfterNumber(begin, val, tail);
             && runs == runs'
             && list == if stop || tail == "" then Ranges([]) else ReadRanges(strtoul, tail[1..], begin')
    ensures ReadRanges(strtoul, text, begin) == AddAll(runs, list)
  {
    ReadStep(strtoul, text, begin, val, n);
  }

  lemma ReadFromStep(
    strtoul: Reader, text: string, current: nat, begin: int, done: seq<Run>, at: nat, val: nat, next: nat,
    runs: seq<Run>, begin': int, stop: bool)
    requires begin >= -1 && current < |text| && at == current + Skip(text[current..]) < next <= |text|
    requires strtoul(text[at..]) == (val, next - at) && val <= INT_MAX
    requires begin' >= -1 && (runs, begin', stop) == AfterNumber(begin, val, text[next..])
    ensures ReadFrom(strtoul, text, current, begin, done) ==
            if stop || next == |text| then Ranges(done + runs)
            else ReadFrom(strtoul, text, next + 1, begin', done + runs)
  {
    var rest, tail := text[current..], text[next..];
    var list := if stop || tail == "" then Ranges([]) else ReadRanges(strtoul, tail[1..], begin');
    assert rest[Skip(rest)..] == text[at..] && rest[next - current..] == tail;
    NumberThenRest(strtoul, rest, begin, val, next - at, tail, runs, list);
    AddTwice(done, runs, list);
    assert next < |text| ==> tail[1..] == text[next + 1..];
  }

  lemma ReadFromFails(
    strtoul: Reader, text: string, current: nat, begin: int, done: seq<Run>, at: nat, val: nat, n: nat)
    requires begin >= -1 && current < |text| && at == current + Skip(text[current..]) && at + n <= |text|
    requires strtoul(text[at..]) == (val, n) && (n == 0 || val > INT_MAX)
    ensures ReadFrom(strtoul, text, current, begin, done) == if n == 0 then NoNumber else TooLarge
  {
    assert text[current..][Skip(text[current..])..] == text[at..];
  }

  lemma ReadFromEnd(strtoul: Reader, text: string, begin: int, done: seq<Run>)
    requires begin >= -1
    ensures ReadFrom(strtoul, text, |text|, begin, done) == Ranges(done)
    ensures ReadFrom(strtoul, text, 0, begin, []) == ReadRanges(strtoul, text, begin)
  {
    assert text[|text|..] == "" && text[0..] == text;
    AddTwice([], [], ReadRanges(strtoul, text, begin));
    AddTwice(done, [], Ranges([]));
    var list := ReadRanges(strtoul, text, begin);
    assert list.Ranges? ==> [] + list.runs == list.runs;
  }

  lemma AddTwice(a: seq<Run>, b: seq<Run>, list: List)
    ensures AddAll(a, AddAll(b, list)) == AddAll(a + b, list)
    ensures AddAll(a, Ranges([])) == Ranges(a)
  {
    assert list.Ranges? ==> a + (b + list.runs) == a + b + list.runs;
  }

  /** The effect of one number on the set: at most one range is added. */
  method TakeNumber(s: Bitmap, begin: int, val: nat, text: string, next: nat, ghost done: seq<Run>)
    returns (begin': int, stop: bool, ghost runs: seq<Run>)
    requires s.Valid() && begin >= -1 && next <= |text| && s.Set() == Members(done)
    modifies s
    ensures s.Valid() && (runs, begin', stop) == AfterNumber(begin, val, text[next..])
    ensures begin' >= -1 && s.Set() == Members(done + runs)
  {
    begin', stop, runs := -1, false, [];
    if begin != -1 {
      s.SetRange(begin, val);
      runs := [Run(begin, val)];
      RangeAppended(done, Run(begin, val));
    } else if next < |text| && text[next] == '-' {
      if next + 1 == |text| {
        s.SetRange(val, -1);
        stop, runs := true, [Run(val, -1)];
        RangeAppended(done, Run(val, -1));
      } else {
        begin' := val;
      }
    } else if next == |text| || text[next] == ',' || text[next] == ' ' {
      s.Add(val);
      runs := [Run(val, val)];
      OneBitRange(val);
      RangeAppended(done, Run(val, val));
    }
    assert runs == [] ==> done + runs == done;
  }

  lemma OneBitRange(cpu: nat)
    ensures Range(cpu, cpu) == iset{cpu}
  {
    assert forall i: nat :: InRange(cpu, cpu, i) <==> i == cpu;
  }

  method SkipEmpty(text: string, current: nat) returns (at: nat)
    requires current <= |text|
    ensures at == current + Skip(text[current..]) <= |text|
  {
    at := current;
    while at < |text| && (text[at] == ',' || text[at] == ' ')
      invariant current <= at <= |text| && at + Skip(text[at..]) == current + Skip(text[current..])
    {
      assert text[at..][1..] == text[at + 1..];
      at := at + 1;
    }
  }

  /** One turn of the loop: a number, and the character behind it. */
  method ScanNumber(strtoul: Reader, s: Bitmap, text: string, current: nat, begin: int, ghost done: seq<Run>)
    returns (outcome: Outcome, current': nat, begin': int, ghost done': seq<Run>)
    requires s.Valid() && WithinText(strtoul) && current < |text| && begin >= -1 && s.Set() == Members(done)
    modifies s
    ensures s.Valid() && begin' >= -1
    ensures outcome == Bad ==> ReadFrom(strtoul, text, current, begin, done) == NoNumber && s.Set() == iset{}
    ensures outcome == Abort ==> ReadFrom(strtoul, text, current, begin, done) == TooLarge
    ensures outcome == Complete || outcome == Cut ==> s.Set() == Members(done')
    ensures outcome == Complete ==> ReadFrom(strtoul, text, current, begin, done) == Ranges(done')
    ensures outcome == Cut ==> current < current' <= |text|
    ensures outcome == Cut ==>
              ReadFrom(strtoul, text, current, begin, done) == ReadFrom(strtoul, text, current', begin', done')
  {
    var at := SkipEmpty(text, current);
    var (val, n) := strtoul(text[at..]);
    current', begin', done' := current, begin, done;
    if n == 0 {
      ReadFromFails(strtoul, text, current, begin, done, at, val, n);
      s.Clear();
      return Bad, current, begin, done;
    }
    if val > INT_MAX {
      ReadFromFails(strtoul, text, current, begin, done, at, val, n);
      return Abort, current, begin, done;
    }
    outcome, current', begin', done' := UseNumber(strtoul, s, text, current, begin, done, at, val, at + n);
  }

  method UseNumber(
    strtoul: Reader, s: Bitmap, text: string, current: nat, begin: int, ghost done: seq<Run>, at: nat, val: nat,
    next: nat)
    returns (outcome: Outcome, current': nat, begin': int, ghost done': seq<Run>)
    requires s.Valid() && begin >= -1 && s.Set() == Members(done)
    requires current < |text| && at == current + Skip(text[current..]) < next <= |text|
    requires strtoul(text[at..]) == (val, next - at) && val <= INT_MAX
    modifies s
    ensures s.Valid() && begin' >= -1 && s.Set() == Members(done')
    ensures outcome == Complete || outcome == Cut
    ensures outcome == Complete ==> ReadFrom(strtoul, text, current, begin, done) == Ranges(done')
    ensures outcome == Cut ==> current < current' <= |text|
    ensures outcome == Cut ==>
              ReadFrom(strtoul, text, current, begin, done) == ReadFrom(strtoul, text, current', begin', done')
  {
    var stop;
    ghost var runs;
    begin', stop, runs := TakeNumber(s, begin, val, text, next, done);
    ReadFromStep(strtoul, text, current, begin, done, at, val, next, runs, begin', stop);
    done' := done + runs;
    if stop || next == |text| {
      outcome, current' := Complete, next;
    } else {
      current', outcome := next + 1, Cut;
    }
  }

  method ScanList(strtoul: Reader, s: Bitmap, text: string) returns (ok: bool)
    requires s.Valid() && WithinText(strtoul)
    modifies s
    ensures s.Valid() && Holds(ReadRanges(strtoul, text, -1), s.Set())
    ensures ok <==> ReadRanges(strtoul, text, -1).Ranges?
  {
    s.Clear();
    var current: nat, begin: int := 0, -1;
    ghost var done: seq<Run> := [];
    ghost var list := ReadFrom(strtoul, text, 0, -1, []);
    ReadFromEnd(strtoul, text, -1, []);
    while current < |text|
      invariant s.Valid() && current <= |text| && begin >= -1 && s.Set() == Members(done)
      invariant ReadFrom(strtoul, text, current, begin, done) == list
      decreases |text| - current
    {
      var outcome: Outcome;
      outcome, current, begin, done := ScanNumber(strtoul, s, text, current, begin, done);
      if outcome != Cut {
        return outcome == Complete;
      }
    }
    ReadFromEnd(strtoul, text, begin, done);
    return true;
  }

  // ----- Reading back what was printed.

  ghost predicate ReadsDecimal(strtoul: Reader, n: nat, tail: string) {
    strtoul(Shortest(n, 10) + tail) == (n, |Shortest(n, 10)|)
  }

  /** What the round trip needs of strtoul. */
  ghost predicate ReadsDecimals(strtoul: Reader) {
    forall n: nat, tail: string :: n <= INT_MAX && (tail == "" || tail[0] == ',' || tail[0] == '-') ==>
                                     ReadsDecimal(strtoul, n, tail)
  }

  lemma StrtoulReadsDecimals()
    ensures WithinText(text => Strtoul(text, 0)) && ReadsDecimals(text => Strtoul(text, 0))
  {
    var strtoul: Reader := text => Strtoul(text, 0);
    forall n: nat, tail: string | n <= INT_MAX && (tail == "" || tail[0] == ',' || tail[0] == '-')
      ensures ReadsDecimal(strtoul, n, tail)
    {
      StrtoulDecimal(n, tail);
    }
  }

  lemma NumberStart(n: nat, tail: string)
    ensures Skip(Shortest(n, 10) + tail) == 0
    ensures (Shortest(n, 10) + tail)[0..] == Shortest(n, 10) + tail
    ensures (Shortest(n, 10) + tail)[|Shortest(n, 10)|..] == tail
  {
    ShortestIsFixed(n, 10);
    FixedDigits(n, 10, |Shortest(n, 10)|);
    assert DigitValue(Shortest(n, 10)[0]) < 10;
  }

  lemma NumberRead(strtoul: Reader, n: nat, tail: string, begin: int)
    requires ReadsDecimals(strtoul) && n <= INT_MAX && begin >= -1
    requires tail == "" || tail[0] == ',' || tail[0] == '-'
    ensures ReadRanges(strtoul, Shortest(n, 10) + tail, begin) ==
            var (runs, begin', stop) := AfterNumber(begin, n, tail);
            AddAll(runs, if stop || tail == "" then Ranges([]) else ReadRanges(strtoul, tail[1..], begin'))
  {
    NumberStart(n, tail);
    assert ReadsDecimal(strtoul, n, tail);
    ReadStep(strtoul, Shortest(n, 10) + tail, begin, n, |Shortest(n, 10)|);
  }

  ghost predicate Printable(runs: seq<Run>) {
    forall k :: 0 <= k < |runs| ==> runs[k].begin <= INT_MAX && runs[k].end <= INT_MAX
  }

  /** One range, with nothing or a comma behind it, is read back. */
  lemma RunReadBack(strtoul: Reader, r: Run, tail: string)
    requires ReadsDecimals(strtoul) && r.begin <= INT_MAX && r.end <= INT_MAX
    requires r.begin <= r.end || (r.end == -1 && tail == "")
    requires tail == "" || tail[0] == ','
    ensures ReadRanges(strtoul, RunText(r) + tail, -1) ==
            AddAll([r], if tail == "" then Ranges([]) else ReadRanges(strtoul, tail[1..], -1))
  {
    if r.end == r.begin {
      NumberRead(strtoul, r.begin, tail, -1);
    } else if r.end == -1 {
      NumberRead(strtoul, r.begin, "-", -1);
      assert RunText(r) + tail == Shortest(r.begin, 10) + "-";
    } else {
      var second := Shortest(r.end, 10) + tail;
      assert RunText(r) + tail == Shortest(r.begin, 10) + ("-" + second);
      NumberRead(strtoul, r.begin, "-" + second, -1);
      assert ("-" + second)[1..] == second;
      NumberRead(strtoul, r.end, tail, r.begin);
      AddTwice([], [r], if tail == "" then Ranges([]) else ReadRanges(strtoul, tail[1..], -1));
    }
  }

  lemma {:induction false} RunsReadBack(strtoul: Reader, runs: seq<Run>)
    requires ReadsDecimals(strtoul) && Maximal(runs) && Printable(runs)
    ensures ReadRanges(strtoul, ListText(runs), -1) == Ranges(runs)
    decreases |runs|
  {
    if |runs| == 1 {
      RunReadBack(strtoul, runs[0], "");
      assert RunText(runs[0]) + "" == RunText(runs[0]);
      assert [runs[0]] + [] == runs;
    } else if |runs| > 1 {
      var rest := ListText(runs[1..]);
      TailIsAbove(runs, 0);
      RunReadBack(strtoul, runs[0], "," + rest);
      assert ("," + rest)[1..] == rest;
      RunsReadBack(strtoul, runs[1..]);
      assert [runs[0]] + runs[1..] == runs;
    }
  }

  /** The text of a set whose runs begin and end at numbers that fit an int is read as those runs, so as
      that set and no other. */
  lemma ListRoundTrip(strtoul: Reader, d: iset<nat>, runs: seq<Run>, s: iset<nat>)
    requires ReadsDecimals(strtoul) && RunsOf(runs, d) && Printable(runs)
    ensures Holds(ReadRanges(strtoul, ListText(runs), -1), s) <==> s == d
  {
    RunsReadBack(strtoul, runs);
  }

  /** Every bitmap that stores no bit beyond INT_MAX is such a set. */
  lemma StoredIsPrintable(ws: seq<Word>, inf: bool, runs: seq<Run>)
    requires 64 * |ws| <= 0x7fff_ffff && RunsOf(runs, Denote(ws, inf))
    ensures Printable(runs)
  {
    forall k | 0 <= k < |runs| ensures runs[k].begin <= INT_MAX && runs[k].end <= INT_MAX {
      RunWithinStored(ws, inf, runs, k);
    }
  }

  lemma RunWithinStored(ws: seq<Word>, inf: bool, runs: seq<Run>, k: nat)
    requires RunsOf(runs, Denote(ws, inf)) && k < |runs|
    ensures runs[k].begin <= 64 * |ws| && runs[k].end <= 64 * |ws|
  {
    RunEdges(runs, k);
    AlikeAbove(ws, inf);
    assert forall i: nat :: i in Denote(ws, inf) <==> InRuns(runs, i);
  }

  lemma AlikeAbove(ws: seq<Word>, inf: bool)
    ensures forall i: nat :: i >= 64 * |ws| ==> (i in Denote(ws, inf) <==> inf)
  {
    assert forall i: nat :: i >= 64 * |ws| ==> Has(ws, inf, i) == inf;
  }

  lemma RunEdges(runs: seq<Run>, k: nat)
    requires Maximal(runs) && k < |runs|
    ensures InRuns(runs, runs[k].begin) && (runs[k].begin > 0 ==> !InRuns(runs, runs[k].begin - 1))
    ensures runs[k].end >= 0 ==> InRuns(runs, runs[k].end) && !InRuns(runs, runs[k].end + 1)
  {
  }
}
