/** Range tables: the generator compresses a sorted list of numbers into runs of consecutive ones, and the
    runtime finds a number's position in the list by bisecting the runs. */
module IntRanges {
  import opened Options
  import opened Varint

  // ----- the `int`s of the code -----

  predicate IsInt(n: int) {
    0 - TWO_31 <= n <= INT_MAX
  }

  /** A sum or difference as a 32-bit `int` keeps it. */
  function WrapInt(n: int): (i: int)
    ensures IsInt(i) && (IsInt(n) ==> i == n)
  {
    (n + TWO_31) % TWO_32 - TWO_31
  }

  /** A list that the code can hold: `int` values, and an `int` number of them. */
  predicate Ints(values: seq<int>) {
    |values| <= INT_MAX && forall i :: 0 <= i < |values| ==> IsInt(values[i])
  }

  /** A run starting at a number, and the position of that number in the list. The entry after the last
      run holds the length of the list. */
  datatype IntRange = IntRange(start: int, orig: nat)

  predicate Increasing(values: seq<int>) {
    forall i, j :: 0 <= i < j < |values| ==> values[i] < values[j]
  }

  predicate NonDecreasing(values: seq<int>) {
    forall i, j :: 0 <= i < j < |values| ==> values[i] <= values[j]
  }

  /** Runs `0 .. n` that cover the positions `0 .. covered` of the list, each holding consecutive numbers. */
  predicate Runs(values: seq<int>, table: seq<IntRange>, covered: nat) {
    && covered <= |values|
    && (table == [] ==> covered == 0)
    && (table != [] ==> table[0].orig == 0 && table[|table| - 1].orig < covered)
    && (forall r :: 0 <= r < |table| - 1 ==> table[r].orig < table[r + 1].orig)
    && (forall r :: 0 <= r < |table| ==> RunHolds(values, table, r, covered))
  }

  /** Where run `r` ends. */
  function RunEnd(table: seq<IntRange>, r: nat, covered: nat): nat
    requires r < |table|
  {
    if r + 1 < |table| then table[r + 1].orig else covered
  }

  predicate RunHolds(values: seq<int>, table: seq<IntRange>, r: nat, covered: nat)
    requires r < |table| && covered <= |values|
  {
    Consecutive(values, table[r].orig, RunEnd(table, r, covered), table[r].start)
  }

  /** The numbers at positions `from .. to` count up from `first`. */
  predicate Consecutive(values: seq<int>, from: nat, to: nat, first: int) {
    to <= |values| && forall k :: from <= k < to ==> values[k] == first + (k - from)
  }

  /** A whole table with its sentinel. */
  predicate IsTable(values: seq<int>, table: seq<IntRange>) {
    |table| >= 1 && table[|table| - 1].orig == |values| && Runs(values, table[..|table| - 1], |values|)
  }

  /** The position of a number in a list: what the table is searched for. */
  function IndexOf(values: seq<int>, value: int): (r: Option<nat>)
    ensures r.Some? ==> r.value < |values| && values[r.value] == value
    ensures r.None? ==> value !in values
  {
    if values == [] then None
    else if values[0] == value then Some(0)
    else match IndexOf(values[1..], value)
      case None => None
      case Some(i) => Some(i + 1)
  }

  lemma IndexIsUnique(values: seq<int>, i: nat)
    requires Increasing(values) && i < |values|
    ensures IndexOf(values, values[i]) == Some(i)
  {
    assert values[i] in values;
  }

  // ----- the generator -----

  /** No two runs could be one: the table is as short as can be. */
  predicate Separate(values: seq<int>, table: seq<IntRange>) {
    forall r :: 0 < r < |table| ==>
      0 < table[r].orig < |values| && values[table[r].orig] != values[table[r].orig - 1] + 1
  }

  /** `WriteIntRanges`: the entries it prints, in order, and the number of runs. Nothing is printed for an
      empty list, whose table is the NULL pointer. */
  method WriteIntRanges(values: seq<int>) returns (table: seq<IntRange>, nRanges: nat)
    requires Increasing(values) && Ints(values)
    ensures values != [] ==> IsTable(values, table) && |table| == nRanges + 1 && nRanges >= 1
    ensures values == [] ==> table == [] && nRanges == 0
    ensures Separate(values, table[..nRanges])
  {
    hide Runs, Increasing, Consecutive, IsTable, Separate, WrapInt, IsInt, Ints;
    table, nRanges := [], 0;
    NoneSeparate(values);
    if |values| == 0 {
      return;
    }
    nRanges := 1;
    for i := 1 to |values|
      invariant nRanges == 1 + Breaks(values, i)
    {
      NextFits(values, i);
      if WrapInt(values[i - 1] + 1) != values[i] {
        nRanges := nRanges + 1;
      }
    }
    var lastRangeStart := 0;
    NoRuns(values);
    OneConsecutive(values, 0);
    for i := 1 to |values|
      invariant lastRangeStart < i
      invariant Runs(values, table, lastRangeStart)
      invariant Consecutive(values, lastRangeStart, i, values[lastRangeStart])
      invariant |table| == Breaks(values, i)
      invariant Separate(values, table)
      invariant lastRangeStart > 0 ==> values[lastRangeStart] != values[lastRangeStart - 1] + 1
      invariant table == [] <==> lastRangeStart == 0
    {
      LastOfConsecutive(values, lastRangeStart, i, values[lastRangeStart]);
      NextFits(values, i);
      RunStartFits(values, lastRangeStart, i);
      if WrapInt(values[i - 1] + 1) != values[i] {
        var count := i - lastRangeStart;
        var expected := WrapInt(values[i - 1] + 1);
        AddRun(values, table, lastRangeStart, i, WrapInt(expected - count));
        AddSeparate(values, table, IntRange(WrapInt(expected - count), lastRangeStart));
        table := table + [IntRange(WrapInt(expected - count), lastRangeStart)];
        lastRangeStart := i;
        OneConsecutive(values, i);
      }
    }
    var count := |values| - lastRangeStart;
    var expected := WrapInt(values[|values| - 1] + 1);
    RunStartFits(values, lastRangeStart, |values|);
    LastOfConsecutive(values, lastRangeStart, |values|, values[lastRangeStart]);
    AddRun(values, table, lastRangeStart, |values|, WrapInt(expected - count));
    AddSeparate(values, table, IntRange(WrapInt(expected - count), lastRangeStart));
    table := table + [IntRange(WrapInt(expected - count), lastRangeStart)];
    ghost var runs := table;
    CloseTable(values, runs);
    table := table + [IntRange(0, |values|)];
    assert table[..nRanges] == runs;
  }

  /** Only the number after INT_MAX wraps around, and that one never has a successor. */
  lemma NextFits(values: seq<int>, i: nat)
    requires Increasing(values) && Ints(values) && 0 < i < |values|
    ensures WrapInt(values[i - 1] + 1) == values[i - 1] + 1
  {
    assert values[i - 1] < values[i];
  }

  /** The start of a run comes out right even where the number after its end has wrapped around. */
  lemma RunStartFits(values: seq<int>, from: nat, to: nat)
    requires Ints(values) && from < to <= |values| && Consecutive(values, from, to, values[from])
    ensures WrapInt(WrapInt(values[to - 1] + 1) - (to - from)) == values[from]
  {
    assert values[to - 1] == values[from] + (to - 1 - from);
    var end := values[to - 1] + 1;
    if end > INT_MAX {
      assert WrapInt(end) == end - TWO_32;
    }
  }

  lemma OneConsecutive(values: seq<int>, i: nat)
    requires i < |values|
    ensures Consecutive(values, i, i + 1, values[i])
  {
  }

  /** The last of consecutive numbers, and one more if it goes on. */
  lemma LastOfConsecutive(values: seq<int>, from: nat, to: nat, first: int)
    requires Consecutive(values, from, to, first) && from < to
    ensures to <= |values| && values[to - 1] == first + (to - 1 - from)
    ensures to < |values| && values[to - 1] + 1 == values[to] ==> Consecutive(values, from, to + 1, first)
  {
  }

  lemma CloseTable(values: seq<int>, runs: seq<IntRange>)
    requires Runs(values, runs, |values|)
    ensures IsTable(values, runs + [IntRange(0, |values|)])
  {
    assert (runs + [IntRange(0, |values|)])[..|runs|] == runs;
  }

  lemma NoneSeparate(values: seq<int>)
    ensures Separate(values, [])
  {
  }

  lemma AddSeparate(values: seq<int>, table: seq<IntRange>, r: IntRange)
    requires Separate(values, table)
    requires table != [] ==> 0 < r.orig < |values| && values[r.orig] != values[r.orig - 1] + 1
    ensures Separate(values, table + [r])
  {
  }

  lemma NoRuns(values: seq<int>)
    ensures Runs(values, [], 0)
  {
  }

  /** How often the first `n` numbers are not consecutive. */
  function Breaks(values: seq<int>, n: nat): (b: nat)
    requires n <= |values|
  {
    if n <= 1 then 0 else Breaks(values, n - 1) + if values[n - 2] + 1 != values[n - 1] then 1 else 0
  }

  lemma AddRun(values: seq<int>, table: seq<IntRange>, start: nat, end: nat, first: int)
    requires Runs(values, table, start) && start < end <= |values|
    requires table == [] <==> start == 0
    requires Consecutive(values, start, end, first)
    ensures Runs(values, table + [IntRange(first, start)], end)
  {
    var more := table + [IntRange(first, start)];
    forall r | 0 <= r < |more|
      ensures RunHolds(values, more, r, end)
    {
      if r < |table| {
        assert RunHolds(values, table, r, start);
        assert RunEnd(more, r, end) == RunEnd(table, r, start);
      }
    }
  }

  // ----- the search -----

  /** The list ends at INT_MAX and the number is in the last run of its table: there the code's sum for the end of the run
      wraps around to the least `int`. */
  predicate Lost(values: seq<int>, ranges: seq<IntRange>, value: int) {
    values != [] && |ranges| >= 2 && values[|values| - 1] == INT_MAX && value >= ranges[|ranges| - 2].start
  }

  /** What the search finds. */
  function Found(values: seq<int>, ranges: seq<IntRange>, value: int): Option<nat> {
    if Lost(values, ranges, value) then None else IndexOf(values, value)
  }

  /** `int_range_lookup`: bisection over the runs finds the position of a number in the list, or -1, which is here `None`;
      it also misses the numbers of a last run that ends at INT_MAX. */
  method IntRangeLookup(ghost values: seq<int>, nRanges: nat, ranges: seq<IntRange>, value: int) returns (r: Option<nat>)
    requires Increasing(values) && Ints(values) && IsInt(value)
    requires nRanges == 0 ==> values == []
    requires nRanges > 0 ==> IsTable(values, ranges) && |ranges| == nRanges + 1
    ensures r == Found(values, ranges, value)
  {
    hide IsTable, Increasing, Ints, WrapInt, Lost;
    if nRanges == 0 {
      NotLost(values, ranges, value);
      return None;
    }
    AllInReach(values, ranges, value);
    var start, n := 0, nRanges;
    while n > 1
      invariant 0 <= start && 0 <= n && start + n <= nRanges
      invariant InReach(values, ranges, value, start, start + n)
    {
      var mid := start + n / 2;
      LookAt(values, ranges, value, start, start + n, mid);
      if value < ranges[mid].start {
        n := mid - start;
      } else if value >= RunLimit(ranges, mid) {
        n := start + n - (mid + 1);
        start := mid + 1;
      } else {
        return Some(value - ranges[mid].start + ranges[mid].orig);
      }
    }
    if n > 0 {
      LookAt(values, ranges, value, start, start + n, start);
      if ranges[start].start <= value < RunLimit(ranges, start) {
        return Some(value - ranges[start].start + ranges[start].orig);
      }
      NothingInReach(values, ranges, value, if value < ranges[start].start then start else start + 1);
    } else {
      NothingInReach(values, ranges, value, start);
    }
    r := None;
  }

  /** The end of a run as the code adds it up: the number after its last one. */
  function RunLimit(ranges: seq<IntRange>, r: nat): int
    requires r + 1 < |ranges|
  {
    WrapInt(ranges[r].start + (ranges[r + 1].orig - ranges[r].orig))
  }

  /** If the search can still find the number, then in the runs `lo .. hi`; a lost one is not before them. */
  predicate InReach(values: seq<int>, ranges: seq<IntRange>, value: int, lo: nat, hi: nat)
    requires lo <= hi < |ranges|
  {
    if Lost(values, ranges, value) then hi == |ranges| - 1
    else forall k :: 0 <= k < |values| && values[k] == value ==> InRuns(values, ranges, k, lo, hi)
  }

  lemma NotLost(values: seq<int>, ranges: seq<IntRange>, value: int)
    requires values == []
    ensures !Lost(values, ranges, value)
  {
  }

  lemma AllInReach(values: seq<int>, ranges: seq<IntRange>, value: int)
    requires IsTable(values, ranges) && |ranges| >= 2
    ensures InReach(values, ranges, value, 0, |ranges| - 1)
  {
    assert ranges[0] == ranges[..|ranges| - 1][0];
  }

  /** The limit of a run is right but for the one that ends at INT_MAX, which is the last. */
  lemma LimitFits(values: seq<int>, ranges: seq<IntRange>, mid: nat)
    requires Increasing(values) && Ints(values) && IsTable(values, ranges) && mid < |ranges| - 1
    ensures var limit := ranges[mid].start + (ranges[mid + 1].orig - ranges[mid].orig);
      if mid == |ranges| - 2 && values[|values| - 1] == INT_MAX then RunLimit(ranges, mid) == 0 - TWO_31
      else RunLimit(ranges, mid) == limit
    ensures values != [] && IsInt(ranges[mid].start)
  {
    var runs := ranges[..|ranges| - 1];
    assert RunHolds(values, runs, mid, |values|);
    RunsAreOrdered(values, ranges, mid, mid + 1);
    RunsAreOrdered(values, ranges, mid + 1, |ranges| - 1);
    var last := ranges[mid + 1].orig - 1;
    assert values[ranges[mid].orig] == ranges[mid].start;
    assert values[last] == ranges[mid].start + (last - ranges[mid].orig);
    if mid < |ranges| - 2 {
      RunsAreOrdered(values, ranges, mid + 1, |ranges| - 2);
      RunsAreOrdered(values, ranges, |ranges| - 2, |ranges| - 1);
      assert values[last] < values[|values| - 1];
    }
  }

  /** One look at a run: where the search goes on, or what it has found. */
  lemma LookAt(values: seq<int>, ranges: seq<IntRange>, value: int, lo: nat, hi: nat, mid: nat)
    requires Increasing(values) && Ints(values) && IsTable(values, ranges) && IsInt(value)
    requires lo <= mid < hi < |ranges| && InReach(values, ranges, value, lo, hi)
    ensures value < ranges[mid].start ==> InReach(values, ranges, value, lo, mid)
    ensures value >= ranges[mid].start && value >= RunLimit(ranges, mid) ==> InReach(values, ranges, value, mid + 1, hi)
    ensures ranges[mid].start <= value < RunLimit(ranges, mid) ==>
      0 <= value - ranges[mid].start + ranges[mid].orig
      && Found(values, ranges, value) == Some(value - ranges[mid].start + ranges[mid].orig)
  {
    hide IsTable, Increasing, Ints, WrapInt, RunLimit;
    LimitFits(values, ranges, mid);
    if value < ranges[mid].start {
      Before(values, ranges, mid, value);
      StartsInOrder(values, ranges, mid);
    } else if Lost(values, ranges, value) {
      StartsInOrder(values, ranges, mid);
    } else if value >= RunLimit(ranges, mid) {
      After(values, ranges, mid, value);
    } else {
      Inside(values, ranges, mid, value);
    }
  }

  /** The last run starts after every other run ends. */
  lemma StartsInOrder(values: seq<int>, ranges: seq<IntRange>, mid: nat)
    requires Increasing(values) && IsTable(values, ranges) && mid < |ranges| - 1
    ensures ranges[mid].start <= ranges[|ranges| - 2].start
    ensures mid < |ranges| - 2 ==> ranges[mid].start + (ranges[mid + 1].orig - ranges[mid].orig) <= ranges[|ranges| - 2].start
  {
    if mid < |ranges| - 2 {
      var runs := ranges[..|ranges| - 1];
      assert RunHolds(values, runs, mid, |values|) && RunHolds(values, runs, |ranges| - 2, |values|);
      RunsAreOrdered(values, ranges, mid, mid + 1);
      RunsAreOrdered(values, ranges, mid + 1, |ranges| - 2);
      RunsAreOrdered(values, ranges, |ranges| - 2, |ranges| - 1);
      var last := ranges[mid + 1].orig - 1;
      assert values[last] == ranges[mid].start + (last - ranges[mid].orig);
      assert values[ranges[|ranges| - 2].orig] == ranges[|ranges| - 2].start;
    }
  }

  /** Without runs left the number is not there, or lost. */
  lemma NothingInReach(values: seq<int>, ranges: seq<IntRange>, value: int, start: nat)
    requires start < |ranges| && InReach(values, ranges, value, start, start)
    ensures Found(values, ranges, value) == None
  {
    var k := IndexOf(values, value);
    assert !Lost(values, ranges, value) && k.Some? ==> InRuns(values, ranges, k.value, start, start);
  }

  /** The search is right about every 32-bit number. */
  ghost predicate FindsAll(values: seq<int>, ranges: seq<IntRange>) {
    forall value :: IsInt(value) ==> Found(values, ranges, value) == IndexOf(values, value)
  }

  /** The numbers that are lost are in the list, so the search is right about every number if and only if the list does not
      end at INT_MAX. */
  lemma LookupRightIff(values: seq<int>, ranges: seq<IntRange>)
    requires Increasing(values) && Ints(values) && (values != [] ==> IsTable(values, ranges))
    ensures FindsAll(values, ranges) <==> values == [] || values[|values| - 1] < INT_MAX
  {
    if values != [] && values[|values| - 1] == INT_MAX {
      TableHasRun(values, ranges);
      LimitFits(values, ranges, |ranges| - 2);
      IndexIsUnique(values, |values| - 1);
      assert Found(values, ranges, INT_MAX) != IndexOf(values, INT_MAX);
    }
  }

  lemma TableHasRun(values: seq<int>, ranges: seq<IntRange>)
    requires values != [] && IsTable(values, ranges)
    ensures |ranges| >= 2
  {
  }

  /** The least such list: its only number is not found. */
  lemma IntMaxIsLost()
    ensures var values, ranges := [INT_MAX], [IntRange(INT_MAX, 0), IntRange(0, 1)];
      && Increasing(values) && Ints(values) && IsTable(values, ranges)
      && IndexOf(values, INT_MAX) == Some(0) && Found(values, ranges, INT_MAX) == None
  {
    var values, runs := [INT_MAX], [IntRange(INT_MAX, 0)];
    assert RunHolds(values, runs, 0, 1);
    assert Runs(values, runs, 1);
    CloseTable(values, runs);
    assert runs + [IntRange(0, 1)] == [IntRange(INT_MAX, 0), IntRange(0, 1)];
  }

  /** Position `k` lies in one of the runs `lo .. hi`. */
  predicate InRuns(values: seq<int>, ranges: seq<IntRange>, k: nat, lo: nat, hi: nat)
    requires lo <= hi < |ranges|
  {
    ranges[lo].orig <= k < ranges[hi].orig
  }

  lemma RunsAreOrdered(values: seq<int>, ranges: seq<IntRange>, i: nat, j: nat)
    requires IsTable(values, ranges) && i <= j < |ranges|
    ensures ranges[i].orig <= ranges[j].orig
    ensures i < j ==> ranges[i].orig < ranges[j].orig
    decreases j - i
  {
    var runs := ranges[..|ranges| - 1];
    if i < j {
      RunsAreOrdered(values, ranges, i, j - 1);
      assert j < |runs| ==> runs[j - 1].orig < runs[j].orig;
    }
  }

  /** A number below the start of a run comes before the run. */
  lemma Before(values: seq<int>, ranges: seq<IntRange>, mid: nat, value: int)
    requires Increasing(values) && IsTable(values, ranges) && mid < |ranges| - 1 && value < ranges[mid].start
    ensures forall k :: 0 <= k < |values| && values[k] == value ==> k < ranges[mid].orig
  {
    var runs := ranges[..|ranges| - 1];
    assert RunHolds(values, runs, mid, |values|);
    RunsAreOrdered(values, ranges, mid, mid + 1);
    RunsAreOrdered(values, ranges, mid + 1, |ranges| - 1);
    assert values[ranges[mid].orig] == ranges[mid].start;
  }

  lemma After(values: seq<int>, ranges: seq<IntRange>, mid: nat, value: int)
    requires Increasing(values) && IsTable(values, ranges) && mid < |ranges| - 1
    requires value >= ranges[mid].start + (ranges[mid + 1].orig - ranges[mid].orig)
    ensures forall k :: 0 <= k < |values| && values[k] == value ==> k >= ranges[mid + 1].orig
  {
    var runs := ranges[..|ranges| - 1];
    assert RunHolds(values, runs, mid, |values|);
    RunsAreOrdered(values, ranges, mid, mid + 1);
    RunsAreOrdered(values, ranges, mid + 1, |ranges| - 1);
    var last := ranges[mid + 1].orig - 1;
    assert values[last] == ranges[mid].start + (last - ranges[mid].orig) < value;
  }

  lemma Inside(values: seq<int>, ranges: seq<IntRange>, mid: nat, value: int)
    requires Increasing(values) && IsTable(values, ranges) && mid < |ranges| - 1
    requires ranges[mid].start <= value < ranges[mid].start + (ranges[mid + 1].orig - ranges[mid].orig)
    ensures IndexOf(values, value) == Some(value - ranges[mid].start + ranges[mid].orig)
  {
    var runs := ranges[..|ranges| - 1];
    assert RunHolds(values, runs, mid, |values|);
    RunsAreOrdered(values, ranges, mid + 1, |ranges| - 1);
    var k := value - ranges[mid].start + ranges[mid].orig;
    assert RunEnd(runs, mid, |values|) == ranges[mid + 1].orig;
    assert values[k] == value;
    IndexIsUnique(values, k);
  }

  // ----- enums: the same over the distinct values of a list with duplicates -----

  /** The distinct values of a sorted list, in order. */
  function Distinct(values: seq<int>): (d: seq<int>)
    ensures |d| <= |values|
    ensures values != [] ==> d != [] && d[|d| - 1] == values[|values| - 1]
  {
    if values == [] then []
    else
      var n := |values| - 1;
      if n > 0 && values[n - 1] == values[n] then Distinct(values[..n]) else Distinct(values[..n]) + [values[n]]
  }

  lemma {:induction false} DistinctIsSame(values: seq<int>, v: int)
    ensures v in Distinct(values) <==> v in values
  {
    if values == [] {
    } else {
      var n := |values| - 1;
      DistinctIsSame(values[..n], v);
      assert values == values[..n] + [values[n]];
      assert n > 0 && values[n - 1] == values[n] ==> values[n] in values[..n];
    }
  }

  lemma {:induction false} DistinctIncreases(values: seq<int>)
    requires NonDecreasing(values)
    ensures Increasing(Distinct(values))
  {
    if values == [] {
    } else {
      var n := |values| - 1;
      DistinctIncreases(values[..n]);
      var d := Distinct(values[..n]);
      forall i | 0 <= i < |d| && values[n - 1] != values[n]
        ensures d[i] < values[n]
      {
        assert d[i] <= d[|d| - 1] == values[n - 1] < values[n];
      }
    }
  }

  lemma DistinctOfSorted(values: seq<int>)
    requires NonDecreasing(values)
    ensures Increasing(Distinct(values))
    ensures forall v :: v in Distinct(values) <==> v in values
  {
    DistinctIncreases(values);
    forall v {
      DistinctIsSame(values, v);
    }
  }

  lemma NoneDistinct()
    ensures Distinct([]) == []
  {
  }

  /** The annotation loop of `GenerateEnumDescriptor`: each entry of the sorted list gets the position of its
      value among the distinct ones. */
  method FinalIndices(values: seq<int>) returns (finalIndex: array<nat>, nUnique: nat)
    requires NonDecreasing(values)
    ensures fresh(finalIndex) && finalIndex.Length == |values|
    ensures nUnique == |Distinct(values)|
    ensures forall j :: 0 <= j < |values| ==> IndexOf(Distinct(values), values[j]) == Some(finalIndex[j])
  {
    hide NonDecreasing, Increasing, Distinct, IndexOf;
    finalIndex := new nat[|values|];
    if |values| == 0 {
      nUnique := 0;
      NoneDistinct();
      return;
    }
    nUnique := 1;
    finalIndex[0] := 0;
    DistinctStep(values, 0);
    for j := 1 to |values|
      invariant nUnique == |Distinct(values[..j])| > 0 && Distinct(values[..j])[nUnique - 1] == values[j - 1]
      invariant forall i :: 0 <= i < j ==> finalIndex[i] < nUnique && Distinct(values[..j])[finalIndex[i]] == values[i]
    {
      DistinctStep(values, j);
      if values[j - 1] != values[j] {
        finalIndex[j] := nUnique;
        nUnique := nUnique + 1;
      } else {
        finalIndex[j] := nUnique - 1;
      }
    }
    assert values[..|values|] == values;
    DistinctOfSorted(values);
    forall j | 0 <= j < |values|
      ensures IndexOf(Distinct(values), values[j]) == Some(finalIndex[j])
    {
      IndexIsUnique(Distinct(values), finalIndex[j]);
    }
  }

  /** The range loop after `j` entries: `table` holds the closed runs of their distinct values `d`, and an open run of
      `rangeLen` values from position `rangeStart` on counts up from `rangeStartValue` to the last value. */
  ghost predicate RangesUpTo(values: seq<int>, j: nat, d: seq<int>, table: seq<IntRange>, rangeStart: nat, rangeLen: nat,
      rangeStartValue: int)
    requires 0 < j <= |values|
  {
    && d == Distinct(values[..j]) && rangeStart + rangeLen == |d| && rangeLen >= 1
    && Runs(d, table, rangeStart) && (table == [] <==> rangeStart == 0)
    && Consecutive(d, rangeStart, |d|, rangeStartValue)
  }

  lemma RangesStart(values: seq<int>)
    requires values != []
    ensures RangesUpTo(values, 1, [values[0]], [], 0, 1, values[0])
  {
    DistinctStep(values, 0);
  }

  /** An entry that repeats the last value changes nothing. */
  lemma RangesSame(values: seq<int>, j: nat, d: seq<int>, table: seq<IntRange>, rangeStart: nat, rangeLen: nat, rangeStartValue: int)
    requires 0 < j < |values| && RangesUpTo(values, j, d, table, rangeStart, rangeLen, rangeStartValue)
    requires values[j - 1] == values[j]
    ensures RangesUpTo(values, j + 1, d, table, rangeStart, rangeLen, rangeStartValue)
  {
    hide Runs, Distinct, Consecutive;
    DistinctStep(values, j);
  }

  /** The next value goes on with the open run. */
  lemma RangesGrow(values: seq<int>, j: nat, d: seq<int>, table: seq<IntRange>, rangeStart: nat, rangeLen: nat, rangeStartValue: int)
    requires 0 < j < |values| && RangesUpTo(values, j, d, table, rangeStart, rangeLen, rangeStartValue)
    requires values[j - 1] + 1 == values[j]
    ensures RangesUpTo(values, j + 1, d + [values[j]], table, rangeStart, rangeLen + 1, rangeStartValue)
  {
    hide Runs, Distinct, Consecutive;
    DistinctStep(values, j);
    LastDistinct(values, j);
    var d' := d + [values[j]];
    LongerList(d, d', table, rangeStart);
    LongerConsecutive(d, d', rangeStart, |d|, rangeStartValue);
    LastOfConsecutive(d', rangeStart, |d|, rangeStartValue);
  }

  /** The next value closes the open run and starts another. */
  lemma RangesBreak(values: seq<int>, j: nat, d: seq<int>, table: seq<IntRange>, rangeStart: nat, rangeLen: nat, rangeStartValue: int)
    requires 0 < j < |values| && RangesUpTo(values, j, d, table, rangeStart, rangeLen, rangeStartValue)
    requires values[j - 1] != values[j] && values[j - 1] + 1 != values[j]
    ensures RangesUpTo(values, j + 1, d + [values[j]], table + [IntRange(rangeStartValue, rangeStart)], rangeStart + rangeLen, 1, values[j])
  {
    hide Runs, Distinct, Consecutive;
    DistinctStep(values, j);
    var d' := d + [values[j]];
    LongerList(d, d', table, rangeStart);
    LongerConsecutive(d, d', rangeStart, |d|, rangeStartValue);
    OneConsecutive(d', |d|);
    AddRun(d', table, rangeStart, |d|, rangeStartValue);
  }

  lemma LastDistinct(values: seq<int>, j: nat)
    requires 0 < j <= |values|
    ensures Distinct(values[..j]) != [] && Distinct(values[..j])[|Distinct(values[..j])| - 1] == values[j - 1]
  {
  }

  lemma RangesEnd(values: seq<int>, d: seq<int>, table: seq<IntRange>, rangeStart: nat, rangeLen: nat, rangeStartValue: int)
    requires values != [] && RangesUpTo(values, |values|, d, table, rangeStart, rangeLen, rangeStartValue)
    ensures d == Distinct(values) && |d| == rangeStart + rangeLen
    ensures Runs(d, table + [IntRange(rangeStartValue, rangeStart)], |d|)
  {
    hide Runs, Distinct, Consecutive;
    WholeIsDistinct(values);
    AddRun(d, table, rangeStart, |d|, rangeStartValue);
  }

  lemma WholeIsDistinct(values: seq<int>)
    ensures Distinct(values[..|values|]) == Distinct(values)
  {
    hide Distinct;
    assert values[..|values|] == values;
  }

  lemma NextValueFits(values: seq<int>, j: nat)
    requires NonDecreasing(values) && Ints(values) && 0 < j < |values| && values[j - 1] != values[j]
    ensures WrapInt(values[j - 1] + 1) == values[j - 1] + 1
  {
    assert values[j - 1] < values[j];
  }

  /** The range loop of `GenerateEnumDescriptor`: the same table, over the distinct values. */
  method EnumRanges(values: seq<int>) returns (table: seq<IntRange>, nRanges: nat)
    requires NonDecreasing(values) && Ints(values)
    ensures values != [] ==> IsTable(Distinct(values), table) && |table| == nRanges + 1 && nRanges >= 1
    ensures values == [] ==> table == [] && nRanges == 0
  {
    hide RangesUpTo, NonDecreasing, Ints, WrapInt, Distinct, IsTable, Runs;
    table, nRanges := [], 0;
    if |values| == 0 {
      return;
    }
    var rangeStart, rangeLen := 0, 1;
    var rangeStartValue := values[0];
    var lastValue := rangeStartValue;
    ghost var d := [values[0]];
    RangesStart(values);
    for j := 1 to |values|
      invariant RangesUpTo(values, j, d, table, rangeStart, rangeLen, rangeStartValue)
      invariant |table| == nRanges && lastValue == values[j - 1]
    {
      if values[j - 1] == values[j] {
        RangesSame(values, j, d, table, rangeStart, rangeLen, rangeStartValue);
      } else {
        NextValueFits(values, j);
        if WrapInt(lastValue + 1) == values[j] {
          RangesGrow(values, j, d, table, rangeStart, rangeLen, rangeStartValue);
          rangeLen := rangeLen + 1;
        } else {
          RangesBreak(values, j, d, table, rangeStart, rangeLen, rangeStartValue);
          table := table + [IntRange(rangeStartValue, rangeStart)];
          rangeStartValue := values[j];
          rangeStart := rangeStart + rangeLen;
          rangeLen := 1;
          nRanges := nRanges + 1;
        }
        lastValue := values[j];
        d := d + [values[j]];
      }
    }
    RangesEnd(values, d, table, rangeStart, rangeLen, rangeStartValue);
    table := table + [IntRange(rangeStartValue, rangeStart)];
    rangeStart := rangeStart + rangeLen;
    nRanges := nRanges + 1;
    CloseTable(d, table);
    table := table + [IntRange(0, rangeStart)];
  }

  /** The distinct values fit the code's `int`s as the whole list does, and end where it ends. */
  lemma DistinctAreInts(values: seq<int>)
    requires NonDecreasing(values) && Ints(values)
    ensures Ints(Distinct(values)) && (values != [] ==> Distinct(values)[|Distinct(values)| - 1] == values[|values| - 1])
  {
    DistinctOfSorted(values);
    assert forall i :: 0 <= i < |Distinct(values)| ==> Distinct(values)[i] in values;
  }

  lemma LastIsGreatest(values: seq<int>)
    requires NonDecreasing(values) && Ints(values) && values != []
    ensures INT_MAX in values <==> values[|values| - 1] == INT_MAX
  {
    assert values[|values| - 1] in values;
    if i :| 0 <= i < |values| && values[i] == INT_MAX {
      assert i < |values| - 1 ==> values[i] <= values[|values| - 1];
    }
  }

  /** Looking up a number in the table of an enum is right for every 32-bit number if and only if the enum does not have INT_MAX. */
  lemma EnumLookupRightIff(values: seq<int>, ranges: seq<IntRange>)
    requires NonDecreasing(values) && Ints(values) && (values != [] ==> IsTable(Distinct(values), ranges))
    ensures FindsAll(Distinct(values), ranges) <==> INT_MAX !in values
  {
    hide FindsAll, IsTable, NonDecreasing, Increasing, Ints;
    DistinctOfSorted(values);
    DistinctAreInts(values);
    LookupRightIff(Distinct(values), ranges);
    if values != [] {
      LastIsGreatest(values);
      LastIsInt(values);
    }
  }

  lemma LastIsInt(values: seq<int>)
    requires Ints(values) && values != []
    ensures values[|values| - 1] <= INT_MAX
  {
  }

  lemma LongerConsecutive(d: seq<int>, d': seq<int>, from: nat, to: nat, first: int)
    requires Consecutive(d, from, to, first) && d <= d'
    ensures Consecutive(d', from, to, first)
  {
  }

  lemma DistinctStep(values: seq<int>, j: nat)
    requires j < |values|
    ensures Distinct(values[..j + 1]) ==
      if j > 0 && values[j - 1] == values[j] then Distinct(values[..j]) else Distinct(values[..j]) + [values[j]]
    ensures Distinct(values[..0]) == []
  {
    var s := values[..j + 1];
    assert s[..j] == values[..j];
  }

  lemma LongerList(d: seq<int>, d': seq<int>, table: seq<IntRange>, covered: nat)
    requires Runs(d, table, covered) && d <= d'
    ensures Runs(d', table, covered)
  {
    forall r | 0 <= r < |table|
      ensures RunHolds(d', table, r, covered)
    {
      assert RunHolds(d, table, r, covered);
    }
  }
}
