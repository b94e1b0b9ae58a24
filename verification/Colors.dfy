/** How the processes of a job find out which of them share a node (src/quo-mpi.c): each gathers the
    network number of every process, and colours itself by the position of its own among them. */
module Colors {
  /** Where the run that starts at i ends: the first index with another number. */
  function RunEnd(nums: seq<int>, i: nat): (j: nat)
    requires i < |nums|
    ensures i < j <= |nums|
    ensures forall k :: i <= k < j ==> nums[k] == nums[i]
    ensures j < |nums| ==> nums[j] != nums[i]
    decreases |nums| - i
  {
    if i + 1 < |nums| && nums[i + 1] == nums[i] then RunEnd(nums, i + 1) else i + 1
  }

  /** How many runs come before the first one of number mine, from the run that starts at i. */
  function RunsBefore(nums: seq<int>, i: nat, mine: int): nat
    requires i < |nums|
    decreases |nums| - i
  {
    if nums[i] == mine then 0
    else if RunEnd(nums, i) == |nums| then 1
    else 1 + RunsBefore(nums, RunEnd(nums, i), mine)
  }

  /** get_my_color, after the sort: it relies on nothing but the own number being among the others, and then
      never reads beyond them, although the inner loop does not look at the length. */
  method GetMyColor(nums: array<int>, mine: int) returns (color: nat)
    requires mine in nums[..]
    ensures color == RunsBefore(nums[..], 0, mine)
  {
    var i := 0;
    var nodeI := 0;
    var prev := nums[0];
    ghost var where :| 0 <= where < nums.Length && nums[where] == mine;
    while i < nums.Length && prev != mine
      invariant 0 <= i <= where && prev == nums[i]
      invariant nodeI + RunsBefore(nums[..], i, mine) == RunsBefore(nums[..], 0, mine)
      decreases nums.Length - i
    {
      ghost var start, end := i, RunEnd(nums[..], i);
      assert end <= where;
      while nums[i] == prev
        invariant start <= i <= end && i <= where
        decreases nums.Length - i
      {
        i := i + 1;
      }
      assert i == end;
      nodeI := nodeI + 1;
      prev := nums[i];
    }
    color := nodeI;
  }

  lemma {:induction false} SameRuns(nums: seq<int>, i: nat, a: int, b: int)
    requires i < |nums| && a in nums[i..] && b in nums[i..]
    ensures RunsBefore(nums, i, a) == RunsBefore(nums, i, b) ==> a == b
    decreases |nums| - i
  {
    if nums[i] != a && nums[i] != b {
      var end := RunEnd(nums, i);
      InRest(nums, i, a);
      InRest(nums, i, b);
      SameRuns(nums, end, a, b);
    }
  }

  lemma InRest(nums: seq<int>, i: nat, a: int)
    requires i < |nums| && a in nums[i..] && nums[i] != a
    ensures RunEnd(nums, i) < |nums| && a in nums[RunEnd(nums, i)..]
  {
    var k :| 0 <= k < |nums| - i && nums[i..][k] == a;
    assert nums[i + k] == a;
    assert nums[RunEnd(nums, i)..][i + k - RunEnd(nums, i)] == a;
  }

  /** The same numbers in any order. */
  ghost predicate Reordered(nums: seq<int>, gathered: seq<int>) {
    multiset(nums) == multiset(gathered)
  }

  function Color(nums: seq<int>, gathered: seq<int>, rank: nat): nat
    requires rank < |gathered| && nums != []
  {
    RunsBefore(nums, 0, gathered[rank])
  }

  /** Whatever order the sort leaves, as long as it is the same on all processes, two of them get the same
      colour exactly when they have the same number. */
  lemma SameColorSameNode(nums: seq<int>, gathered: seq<int>, p: nat, q: nat)
    requires Reordered(nums, gathered) && p < |gathered| && q < |gathered|
    ensures nums != [] && gathered[p] in nums
    ensures Color(nums, gathered, p) == Color(nums, gathered, q) <==> gathered[p] == gathered[q]
  {
    assert gathered[p] in multiset(gathered) && gathered[q] in multiset(gathered);
    assert nums[0..] == nums;
    SameRuns(nums, 0, gathered[p], gathered[q]);
  }

  // ----- Counting nodes.

  /** The rank of p in its node's communicator: those of the same colour keep their order. */
  function SmpRank(colors: seq<nat>, p: nat): nat
    requires p < |colors|
  {
    Peers(colors[..p], colors[p])
  }

  function Peers(colors: seq<nat>, color: nat): nat {
    if colors == [] then 0 else Peers(colors[..|colors| - 1], color) + if colors[|colors| - 1] == color then 1 else 0
  }

  lemma {:induction false} NoPeers(colors: seq<nat>, color: nat)
    ensures Peers(colors, color) == 0 <==> color !in colors
  {
    if colors != [] {
      NoPeers(colors[..|colors| - 1], color);
      assert colors == colors[..|colors| - 1] + [colors[|colors| - 1]];
    }
  }

  /** The sum over the first n processes of their contributions: 1 from rank 0 of each node. */
  function Contributions(colors: seq<nat>, n: nat): nat
    requires n <= |colors|
  {
    if n == 0 then 0 else Contributions(colors, n - 1) + if SmpRank(colors, n - 1) == 0 then 1 else 0
  }

  ghost function Numbers(gathered: seq<int>): set<int> {
    set p | 0 <= p < |gathered| :: gathered[p]
  }

  lemma NumbersStep(gathered: seq<int>, p: nat)
    requires p < |gathered|
    ensures Numbers(gathered[..p + 1]) == Numbers(gathered[..p]) + {gathered[p]}
  {
    var more, less := gathered[..p + 1], gathered[..p];
    forall x ensures x in Numbers(more) <==> x in Numbers(less) || x == gathered[p] {
      if x in Numbers(less) {
        var k :| 0 <= k < p && less[k] == x;
        assert more[k] == x;
      }
      if x == gathered[p] {
        assert more[p] == x;
      }
    }
  }

  lemma SeenBefore(gathered: seq<int>, colors: seq<nat>, p: nat)
    requires |colors| == |gathered| && p < |colors|
    requires forall q :: 0 <= q < p ==> (colors[q] == colors[p] <==> gathered[q] == gathered[p])
    ensures gathered[p] in Numbers(gathered[..p]) <==> colors[p] in colors[..p]
  {
    if gathered[p] in Numbers(gathered[..p]) {
      var k :| 0 <= k < p && gathered[..p][k] == gathered[p];
      assert colors[..p][k] == colors[p];
    }
    if colors[p] in colors[..p] {
      var k :| 0 <= k < p && colors[..p][k] == colors[p];
      assert gathered[..p][k] == gathered[p];
    }
  }

  lemma {:induction false} ContributionsCount(gathered: seq<int>, colors: seq<nat>, n: nat)
    requires |colors| == |gathered| && n <= |colors|
    requires forall p, q :: 0 <= p < |colors| && 0 <= q < |colors| ==>
                              (colors[p] == colors[q] <==> gathered[p] == gathered[q])
    ensures Contributions(colors, n) == |Numbers(gathered[..n])|
  {
    if n > 0 {
      var p := n - 1;
      ContributionsCount(gathered, colors, p);
      NoPeers(colors[..p], colors[p]);
      NumbersStep(gathered, p);
      SeenBefore(gathered, colors, p);
      var before := Numbers(gathered[..p]);
      assert Numbers(gathered[..n]) == before + {gathered[p]};
      if gathered[p] in before {
        assert before + {gathered[p]} == before;
      }
    }
  }

  /** smprank_setup: all processes learn the number of distinct network numbers. */
  lemma NodesCounted(nums: seq<int>, gathered: seq<int>, colors: seq<nat>)
    requires Reordered(nums, gathered) && |colors| == |gathered|
    requires forall p :: 0 <= p < |gathered| ==> nums != [] && colors[p] == Color(nums, gathered, p)
    ensures Contributions(colors, |colors|) == |Numbers(gathered)|
  {
    forall p, q | 0 <= p < |colors| && 0 <= q < |colors|
      ensures colors[p] == colors[q] <==> gathered[p] == gathered[q]
    {
      SameColorSameNode(nums, gathered, p, q);
    }
    ContributionsCount(gathered, colors, |colors|);
    assert gathered[..|gathered|] == gathered;
  }
}
