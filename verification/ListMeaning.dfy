/** What the text of BitmapList's printer says, in terms of decimal numbers, dashes and commas alone. */
module ListMeaning {
  import opened Words
  import opened Numerals
  import opened BitSets
  import opened BitmapList
  import opened HexMeaning

  /** s is n in decimal. */
  predicate IsDecimal(s: string, n: nat) {
    && s != "" && "0123456789"[n % 10] == s[|s| - 1]
    && if |s| == 1 then n < 10 else s[0] != '0' && IsDecimal(s[..|s| - 1], n / 10)
  }

  /** One number, or two with a dash between them, or one and a dash for a range that never ends. */
  ghost predicate IsRange(p: string, begin: nat, end: int) {
    || (end == begin && IsDecimal(p, begin))
    || (end == -1 && exists x: string :: IsDecimal(x, begin) && p == x + "-")
    || (end > begin && exists x: string, y: string :: IsDecimal(x, begin) && IsDecimal(y, end) && p == x + ("-" + y))
  }

  lemma FigureIs(d: nat)
    requires d < 10
    ensures "0123456789"[d] == Digit(d)
  {
  }

  lemma {:induction false} ShortestIsDecimal(n: nat)
    ensures IsDecimal(Shortest(n, 10), n)
  {
    FigureIs(n % 10);
    if n >= 10 {
      var front := Shortest(n / 10, 10);
      ShortestIsDecimal(n / 10);
      ShortestLeading(n / 10, 10);
      assert Shortest(n, 10) == front + [Digit(n % 10)];
      assert (front + [Digit(n % 10)])[..|front|] == front;
    }
  }

  lemma {:induction false} DecimalIsPlain(s: string, n: nat)
    requires IsDecimal(s, n)
    ensures forall j :: 0 <= j < |s| ==> '0' <= s[j] <= '9'
  {
    FigureIs(n % 10);
    if |s| > 1 {
      DecimalIsPlain(s[..|s| - 1], n / 10);
      assert forall j :: 0 <= j < |s| - 1 ==> s[..|s| - 1][j] == s[j];
    }
  }

  lemma RunIsRange(r: Run)
    requires r.begin <= r.end || r.end == -1
    ensures IsRange(RunText(r), r.begin, r.end)
    ensures forall j :: 0 <= j < |RunText(r)| ==> RunText(r)[j] != ','
  {
    var x := Shortest(r.begin, 10);
    ShortestIsDecimal(r.begin);
    DecimalIsPlain(x, r.begin);
    if r.end > r.begin {
      var y := Shortest(r.end, 10);
      ShortestIsDecimal(r.end);
      DecimalIsPlain(y, r.end);
      assert RunText(r) == x + ("-" + y);
    } else if r.end == -1 {
      assert RunText(r) == x + "-";
    }
  }

  ghost predicate AreRanges(ps: seq<string>, runs: seq<Run>) {
    |ps| == |runs| && forall k :: 0 <= k < |ps| ==> IsRange(ps[k], runs[k].begin, runs[k].end)
  }

  lemma RangeBefore(p: string, r: Run, ps: seq<string>, runs: seq<Run>)
    requires IsRange(p, r.begin, r.end) && AreRanges(ps, runs)
    ensures AreRanges([p] + ps, [r] + runs)
  {
    forall k | 0 <= k < |ps| + 1 ensures IsRange(([p] + ps)[k], ([r] + runs)[k].begin, ([r] + runs)[k].end) {
      if k > 0 {
        assert IsRange(ps[k - 1], runs[k - 1].begin, runs[k - 1].end);
      }
    }
  }

  /** Between commas, the text names the runs, in their order; for no runs it is empty. */
  lemma {:induction false} ListTextIs(runs: seq<Run>)
    requires Maximal(runs)
    ensures runs == [] ==> ListText(runs) == ""
    ensures runs != [] ==> AreRanges(Pieces(ListText(runs)), runs)
    decreases |runs|
  {
    if runs != [] {
      RunIsRange(runs[0]);
      FirstPiece(RunText(runs[0]), ListText(runs[1..]));
      if |runs| > 1 {
        RestIsMaximal(runs);
        ListTextIs(runs[1..]);
        RangeBefore(RunText(runs[0]), runs[0], Pieces(ListText(runs[1..])), runs[1..]);
        assert [runs[0]] + runs[1..] == runs;
      }
    }
  }

  lemma RestIsMaximal(runs: seq<Run>)
    requires Maximal(runs) && runs != []
    ensures Maximal(runs[1..])
  {
  }

  /** The text that is printed for a set names, as decimal numbers, exactly the ends of its maximal runs. */
  lemma ListTextNames(runs: seq<Run>, s: iset<nat>)
    requires RunsOf(runs, s)
    ensures ListText(runs) == "" <==> s == iset{}
    ensures s != iset{} ==> AreRanges(Pieces(ListText(runs)), runs)
  {
    ListTextIs(runs);
    if runs == [] {
      assert forall i: nat :: i !in s;
    } else {
      FirstRun(runs, runs[0].begin);
      assert runs[0].begin in s;
      assert IsRange(Pieces(ListText(runs))[0], runs[0].begin, runs[0].end);
      assert Pieces("") == [""];
    }
  }
}
