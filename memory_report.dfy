/**
 * The `/memory-usage` report: the first 50 statistics of an allocation
 * snapshot, each rendered as one line, in the order the allocation tracker
 * gives them. The report itself does not sort; the tracker lists its
 * statistics from the largest allocation size down.
 */
module MemoryReport {

  /** One frame of an allocation's traceback. */
  datatype Frame = Frame(filename: string, lineno: int)

  /** One statistic of a snapshot: where the memory was allocated and how many bytes are live. */
  datatype AllocationStat = AllocationStat(traceback: seq<Frame>, size: nat)

  /** How many statistics the report keeps. */
  const TopCount: nat := 50

  /** Python's slice `stats[:n]` for a non-negative `n`: a prefix, shorter than `n` when the list is. */
  function Top(stats: seq<AllocationStat>, n: nat): (r: seq<AllocationStat>)
    ensures |r| == if |stats| < n then |stats| else n
    ensures r == stats[..|r|]
  {
    if |stats| <= n then stats else stats[..n]
  }

  /**
   * The endpoint's loop: render each of the first `TopCount` statistics, in
   * order. `render` stands for the tracker's traceback formatting together
   * with the KiB conversion, neither of which is modelled.
   */
  method MemoryUsage(topStats: seq<AllocationStat>, render: AllocationStat -> string) returns (result: seq<string>)
    ensures |result| == if |topStats| < TopCount then |topStats| else TopCount
    ensures forall i :: 0 <= i < |result| ==> result[i] == render(topStats[i])
  {
    var top50 := Top(topStats, TopCount);
    result := [];
    for i := 0 to |top50|
      invariant |result| == i
      invariant forall j :: 0 <= j < i ==> result[j] == render(top50[j])
    {
      result := result + [render(top50[i])];
    }
  }

  /** The tracker's ordering: sizes never increase from one statistic to the next. */
  ghost predicate SortedBySizeDescending(stats: seq<AllocationStat>)
  {
    forall i :: 0 < i < |stats| ==> stats[i - 1].size >= stats[i].size
  }

  lemma {:induction false} SortedPairwise(stats: seq<AllocationStat>, i: nat, j: nat)
    requires SortedBySizeDescending(stats)
    requires i <= j < |stats|
    ensures stats[i].size >= stats[j].size
    decreases j - i
  {
    if i < j {
      SortedPairwise(stats, i + 1, j);
    }
  }

  /**
   * When the tracker lists its statistics by size, largest first, the kept
   * statistics are the largest ones, still largest first: none left out is
   * bigger than one kept.
   */
  lemma TopKeepsLargest(stats: seq<AllocationStat>, n: nat)
    requires SortedBySizeDescending(stats)
    ensures SortedBySizeDescending(Top(stats, n))
    ensures forall i, j :: 0 <= i < |Top(stats, n)| <= j < |stats| ==> stats[i].size >= stats[j].size
  {
    forall i, j | 0 <= i < |Top(stats, n)| <= j < |stats| ensures stats[i].size >= stats[j].size {
      SortedPairwise(stats, i, j);
    }
  }
}
