/** The set of articles read in one group, kept as sorted, disjoint, non-adjacent ranges of 64-bit
    article numbers. */
module ReadSets {
  import opened Sequences

  const U64_MAX: int := 0xFFFF_FFFF_FFFF_FFFF

  newtype u64 = n: int | 0 <= n <= 0xFFFF_FFFF_FFFF_FFFF

  /** An inclusive run of article numbers. */
  datatype Span = Span(low: u64, high: u64)

  type Ranges = seq<Span>

  // ----- what ranges mean -----

  ghost predicate Has(ranges: Ranges, n: int) {
    exists k :: 0 <= k < |ranges| && ranges[k].low as int <= n <= ranges[k].high as int
  }

  /** Positive, in order, and with at least one missing number between neighbours. */
  ghost predicate Canonical(ranges: Ranges) {
    && (forall k :: 0 <= k < |ranges| ==> 1 <= ranges[k].low <= ranges[k].high)
    && (forall i, j :: 0 <= i < j < |ranges| ==> ranges[i].high as int + 1 < ranges[j].low as int)
  }

  lemma CanonicalTail(ranges: Ranges)
    requires Canonical(ranges) && ranges != []
    ensures Canonical(ranges[1..])
    ensures forall n :: Has(ranges[1..], n) <==> Has(ranges, n) && n > ranges[0].high as int
  {
  }

  /** Equal sets have equal ranges. */
  lemma {:induction false} RangesUnique(a: Ranges, b: Ranges)
    requires Canonical(a) && Canonical(b) && forall n :: Has(a, n) <==> Has(b, n)
    ensures a == b
  {
    if a == [] || b == [] {
      if a != [] { HasAt(a, a[0].low as int); }
      if b != [] { HasAt(b, b[0].low as int); }
    } else {
      SameFirst(a, b);
      CanonicalTail(a);
      CanonicalTail(b);
      RangesUnique(a[1..], b[1..]);
    }
  }

  lemma HasAt(ranges: Ranges, n: int)
    requires ranges != [] && ranges[0].low as int <= n <= ranges[0].high as int
    ensures Has(ranges, n)
  {
  }

  lemma SameFirst(a: Ranges, b: Ranges)
    requires Canonical(a) && Canonical(b) && a != [] && b != [] && forall n :: Has(a, n) <==> Has(b, n)
    ensures a[0] == b[0]
  {
    FirstBounds(a, b);
    FirstBounds(b, a);
  }

  /** The first range of `a` starts no later and ends no earlier than that of `b`. */
  lemma FirstBounds(a: Ranges, b: Ranges)
    requires Canonical(a) && Canonical(b) && a != [] && b != [] && forall n :: Has(a, n) <==> Has(b, n)
    ensures a[0].low <= b[0].low
    ensures a[0].low == b[0].low ==> a[0].high >= b[0].high
  {
    HasAt(b, b[0].low as int);
    if a[0].low == b[0].low && a[0].high < b[0].high {
      HasAt(b, a[0].high as int + 1);
    }
  }

  // ----- searching -----

  /** How many leading ranges satisfy a condition: the partition point of a partitioned list. */
  function PartitionPoint(ranges: Ranges, holds: Span -> bool): (p: nat)
    ensures p <= |ranges|
    ensures forall k :: 0 <= k < p ==> holds(ranges[k])
    ensures p < |ranges| ==> !holds(ranges[p])
  {
    if ranges == [] || !holds(ranges[0]) then 0 else 1 + PartitionPoint(ranges[1..], holds)
  }

  datatype Search = Found(index: nat) | Missing(index: nat)

  /** Where a range starting at `number` is, or where one would be inserted. */
  function SearchLow(ranges: Ranges, number: u64): (s: Search)
    ensures s.index <= |ranges| && (s.Found? ==> s.index < |ranges| && ranges[s.index].low == number)
    ensures forall k :: 0 <= k < s.index ==> ranges[k].low < number
    ensures s.Missing? && s.index < |ranges| ==> ranges[s.index].low > number
  {
    var p := PartitionPoint(ranges, (r: Span) => r.low < number);
    if p < |ranges| && ranges[p].low == number then Found(p) else Missing(p)
  }

  // ----- counting -----

  function SizeSum(ranges: Ranges): nat {
    if ranges == [] then 0
    else SizeSum(ranges[..|ranges| - 1]) + Size(ranges[|ranges| - 1].low as int, ranges[|ranges| - 1].high as int)
  }

  function Size(low: int, high: int): nat {
    if low <= high then high - low + 1 else 0
  }

  /** The part of a run inside a window. */
  function Clip(r: Span, low: u64, high: u64): Span {
    Span(if r.low >= low then r.low else low, if r.high <= high then r.high else high)
  }

  function ClipSum(ranges: Ranges, low: u64, high: u64): nat {
    if ranges == [] then 0
    else
      var c := Clip(ranges[|ranges| - 1], low, high);
      ClipSum(ranges[..|ranges| - 1], low, high) + Size(c.low as int, c.high as int)
  }

  /** The numbers of a window that are in the set. */
  ghost function Members(ranges: Ranges, low: int, high: int): set<int> {
    set n | low <= n <= high && Has(ranges, n)
  }

  function Interval(low: int, high: int): (s: set<int>)
    ensures forall n :: n in s <==> low <= n <= high
    ensures |s| == Size(low, high)
    decreases high - low
  {
    if low > high then {} else Interval(low, high - 1) + {high}
  }

  lemma CanonicalInit(ranges: Ranges)
    requires Canonical(ranges) && ranges != []
    ensures Canonical(ranges[..|ranges| - 1])
    ensures forall n :: Has(ranges, n) <==>
              Has(ranges[..|ranges| - 1], n) || ranges[|ranges| - 1].low as int <= n <= ranges[|ranges| - 1].high as int
    ensures forall n {:trigger Has(ranges[..|ranges| - 1], n)} ::
              Has(ranges[..|ranges| - 1], n) ==> n + 1 < ranges[|ranges| - 1].low as int
  {
  }

  /** The clipped sizes add up to the number of members in the window. */
  lemma {:induction false} ClipSumExact(ranges: Ranges, low: u64, high: u64)
    requires Canonical(ranges)
    ensures ClipSum(ranges, low, high) == |Members(ranges, low as int, high as int)|
    ensures ClipSum(ranges, low, high) <= Size(low as int, high as int)
    decreases |ranges|
  {
    SubsetCardinality(Members(ranges, low as int, high as int), Interval(low as int, high as int));
    if ranges != [] {
      hide Has, Canonical, Interval;
      ClipSumExact(Init(ranges), low, high);
      MembersLast(ranges, low, high);
    } else {
      assert Members(ranges, low as int, high as int) == {};
    }
  }

  function Init(ranges: Ranges): Ranges
    requires ranges != []
  {
    ranges[..|ranges| - 1]
  }

  lemma MembersLast(ranges: Ranges, low: u64, high: u64)
    requires Canonical(ranges) && ranges != []
    ensures Canonical(Init(ranges))
    ensures var c := Clip(ranges[|ranges| - 1], low, high);
            |Members(ranges, low as int, high as int)| ==
            |Members(Init(ranges), low as int, high as int)| + Size(c.low as int, c.high as int)
  {
    CanonicalInit(ranges);
    var c := Clip(ranges[|ranges| - 1], low, high);
    var here := Interval(c.low as int, c.high as int);
    var before := Members(Init(ranges), low as int, high as int);
    assert Members(ranges, low as int, high as int) == before + here;
    assert before !! here;
  }

  lemma {:induction false} SizeSumIsClipSum(ranges: Ranges)
    requires Canonical(ranges)
    ensures SizeSum(ranges) == ClipSum(ranges, 1, 0xFFFF_FFFF_FFFF_FFFF)
    decreases |ranges|
  {
    if ranges != [] {
      CanonicalInit(ranges);
      assert Clip(ranges[|ranges| - 1], 1, 0xFFFF_FFFF_FFFF_FFFF) == ranges[|ranges| - 1];
      SizeSumIsClipSum(ranges[..|ranges| - 1]);
    }
  }

  /** Every member is a positive 64-bit number. */
  lemma MembersInRange(ranges: Ranges, n: int)
    requires Canonical(ranges) && Has(ranges, n)
    ensures 1 <= n <= U64_MAX
  {
  }

  /** The sizes added up in 64 bits: no step overflows. */
  function Total(ranges: Ranges): (total: u64)
    requires Canonical(ranges)
    ensures total as int == SizeSum(ranges)
    decreases |ranges|
  {
    if ranges == [] then 0
    else
      CanonicalInit(ranges);
      SizeSumIsClipSum(ranges);
      ClipSumExact(ranges, 1, 0xFFFF_FFFF_FFFF_FFFF);
      var last := ranges[|ranges| - 1];
      Total(ranges[..|ranges| - 1]) + (last.high - last.low + 1)
  }

  function ClipTotal(ranges: Ranges, low: u64, high: u64): (total: u64)
    requires Canonical(ranges) && 1 <= low <= high
    ensures total as int == ClipSum(ranges, low, high)
    decreases |ranges|
  {
    if ranges == [] then 0
    else
      CanonicalInit(ranges);
      ClipSumExact(ranges, low, high);
      var c := Clip(ranges[|ranges| - 1], low, high);
      var before := ClipTotal(ranges[..|ranges| - 1], low, high);
      if c.low <= c.high then before + (c.high - c.low + 1) else before
  }

  function Max(a: u64, b: u64): u64 {
    if a >= b then a else b
  }

  function Min(a: u64, b: u64): u64 {
    if a <= b then a else b
  }

  function SaturatingSub(a: u64, b: u64): u64 {
    if a >= b then a - b else 0
  }

  // ----- changing ranges -----

  /** `n` lies in the range a caller names: the bounds in either order, never zero. */
  predicate Named(low: u64, high: u64, n: int) {
    1 <= n && Min(low, high) as int <= n <= Max(low, high) as int
  }

  ghost predicate Touching(r: Span, low: u64, high: u64) {
    r.high as int + 1 >= low as int && r.low as int <= high as int + 1
  }

  /** The stretch of ranges that touch or abut `[low, high]`, and what lies on either side. */
  lemma MergeWindow(ranges: Ranges, low: u64, high: u64, first: nat, last: nat)
    requires Canonical(ranges) && 1 <= low <= high
    requires first <= |ranges| && forall k :: 0 <= k < first ==> ranges[k].high < low - 1
    requires first < |ranges| ==> ranges[first].high >= low - 1
    requires last <= |ranges| && forall k :: 0 <= k < last ==> ranges[k].low as int <= high as int + 1
    requires last < |ranges| ==> high < 0xFFFF_FFFF_FFFF_FFFF && ranges[last].low > high + 1
    ensures forall k :: 0 <= k < first ==> ranges[k].high as int + 1 < low as int
    ensures forall k :: last <= k < |ranges| ==> ranges[k].low as int > high as int + 1
    ensures forall k :: first <= k < last ==> Touching(ranges[k], low, high)
    ensures first <= last
  {
  }

  /** Replacing that stretch by one merged range adds exactly `[low, high]`. */
  lemma Merged(ranges: Ranges, low: u64, high: u64, first: nat, last: nat, merged: Span)
    requires Canonical(ranges) && 1 <= low <= high && first <= last <= |ranges|
    requires forall k :: 0 <= k < first ==> ranges[k].high as int + 1 < low as int
    requires forall k :: last <= k < |ranges| ==> ranges[k].low as int > high as int + 1
    requires forall k :: first <= k < last ==> Touching(ranges[k], low, high)
    requires merged.low == (if first < last then Min(low, ranges[first].low) else low)
    requires merged.high == (if first < last then Max(high, ranges[last - 1].high) else high)
    ensures Canonical(ranges[..first] + [merged] + ranges[last..])
    ensures forall n :: Has(ranges[..first] + [merged] + ranges[last..], n) <==>
              Has(ranges, n) || low as int <= n <= high as int
  {
    hide Has;
    var left, mid, right := ranges[..first], ranges[first..last], ranges[last..];
    SliceThree(ranges, first, last);
    CanonicalPrefix(ranges, first);
    CanonicalPrefix(ranges, last);
    MergedEnds(ranges, low, high, first, last, merged);
    CanonicalThree(left, [merged], right, merged.low as int, merged.high as int);
    forall n ensures Has(left + [merged] + right, n) <==> Has(ranges, n) || low as int <= n <= high as int {
      HasThree(left, [merged], right, n);
      HasThree(left, mid, right, n);
      HasOne(merged, n);
      MergedCovers(ranges, low, high, first, last, merged, n);
    }
  }

  /** Three runs of ranges, the middle one kept within bounds the others stay clear of. */
  lemma CanonicalThree(a: Ranges, mid: Ranges, c: Ranges, low: int, high: int)
    requires Canonical(a) && Canonical(mid) && Canonical(c) && low <= high
    requires forall k :: 0 <= k < |a| ==> a[k].high as int + 1 < low
    requires forall k :: 0 <= k < |mid| ==> low <= mid[k].low as int && mid[k].high as int <= high
    requires forall k :: 0 <= k < |c| ==> high + 1 < c[k].low as int
    ensures Canonical(a + mid + c)
  {
  }

  /** The merged range stays clear of what is kept on either side. */
  lemma MergedEnds(ranges: Ranges, low: u64, high: u64, first: nat, last: nat, merged: Span)
    requires Canonical(ranges) && 1 <= low <= high && first <= last <= |ranges|
    requires forall k :: 0 <= k < first ==> ranges[k].high as int + 1 < low as int
    requires forall k :: last <= k < |ranges| ==> ranges[k].low as int > high as int + 1
    requires merged.low == (if first < last then Min(low, ranges[first].low) else low)
    requires merged.high == (if first < last then Max(high, ranges[last - 1].high) else high)
    ensures 1 <= merged.low <= merged.high
    ensures forall k :: 0 <= k < first ==> ranges[k].high as int + 1 < merged.low as int
    ensures forall k :: last <= k < |ranges| ==> merged.high as int + 1 < ranges[k].low as int
  {
  }

  lemma HasOne(r: Span, n: int)
    ensures Has([r], n) <==> r.low as int <= n <= r.high as int
  {
    assert [r][0] == r;
  }

  lemma MergedCovers(ranges: Ranges, low: u64, high: u64, first: nat, last: nat, merged: Span, n: int)
    requires Canonical(ranges) && 1 <= low <= high && first <= last <= |ranges|
    requires forall k :: first <= k < last ==> Touching(ranges[k], low, high)
    requires merged.low == (if first < last then Min(low, ranges[first].low) else low)
    requires merged.high == (if first < last then Max(high, ranges[last - 1].high) else high)
    ensures merged.low as int <= n <= merged.high as int <==>
            Has(ranges[first..last], n) || low as int <= n <= high as int
  {
  }

  /** What is left of one range outside `[low, high]`. */
  function Outside(r: Span, low: u64, high: u64): (pieces: Ranges)
    requires 1 <= low <= high
  {
    if r.high < low || r.low > high then [r]
    else (if r.low < low then [Span(r.low, low - 1)] else [])
         + (if r.high > high then [Span(high + 1, r.high)] else [])
  }

  /** Cutting a window out of one more range. */
  lemma OutsideStep(before: Ranges, kept: Ranges, r: Span, low: u64, high: u64)
    requires 1 <= low <= high && Canonical(before + [r]) && Canonical(kept)
    requires forall n :: Has(kept, n) <==> Has(before, n) && !(low as int <= n <= high as int)
    ensures Canonical(kept + Outside(r, low, high))
    ensures forall n :: Has(kept + Outside(r, low, high), n) <==>
              Has(before + [r], n) && !(low as int <= n <= high as int)
  {
    var whole, pieces := before + [r], Outside(r, low, high);
    CanonicalInit(whole);
    assert whole[..|whole| - 1] == before;
    forall k | 0 <= k < |kept| ensures kept[k].high as int + 1 < r.low as int {
      assert Has(kept, kept[k].high as int);
    }
    forall n ensures Has(kept + pieces, n) <==> Has(kept, n) || Has(pieces, n) {
      HasConcat(kept, pieces, n);
    }
    HasOutside(r, low, high);
    assert whole[|whole| - 1] == r;
  }

  lemma HasConcat(a: Ranges, b: Ranges, n: int)
    ensures Has(a + b, n) <==> Has(a, n) || Has(b, n)
  {
    if Has(a + b, n) {
      var k :| 0 <= k < |a + b| && (a + b)[k].low as int <= n <= (a + b)[k].high as int;
      if k < |a| { assert a[k] == (a + b)[k]; } else { assert b[k - |a|] == (a + b)[k]; }
    }
    if Has(a, n) {
      var k :| 0 <= k < |a| && a[k].low as int <= n <= a[k].high as int;
      assert (a + b)[k] == a[k];
    }
    if Has(b, n) {
      var k :| 0 <= k < |b| && b[k].low as int <= n <= b[k].high as int;
      assert (a + b)[|a| + k] == b[k];
    }
  }

  lemma HasThree(a: Ranges, b: Ranges, c: Ranges, n: int)
    ensures Has(a + b + c, n) <==> Has(a, n) || Has(b, n) || Has(c, n)
  {
    HasConcat(a, b, n);
    HasConcat(a + b, c, n);
  }

  lemma HasOutside(r: Span, low: u64, high: u64)
    requires 1 <= low <= high
    ensures forall n :: Has(Outside(r, low, high), n) <==>
              r.low as int <= n <= r.high as int && !(low as int <= n <= high as int)
  {
    var pieces := Outside(r, low, high);
    forall n | r.low as int <= n <= r.high as int && !(low as int <= n <= high as int) ensures Has(pieces, n) {
      if r.high < low || r.low > high || n < low as int {
        assert pieces[0].low as int <= n <= pieces[0].high as int;
      } else {
        assert pieces[|pieces| - 1].low as int <= n <= pieces[|pieces| - 1].high as int;
      }
    }
  }

  lemma CanonicalPrefix(ranges: Ranges, k: nat)
    requires Canonical(ranges) && k <= |ranges|
    ensures Canonical(ranges[..k]) && Canonical(ranges[k..])
  {
  }

  /** The candidate for holding a number is the last range that starts at or below it. */
  lemma ContainsExact(ranges: Ranges, number: u64)
    requires Canonical(ranges)
    ensures var s := SearchLow(ranges, number);
            Has(ranges, number as int) <==>
            number != 0 && (s.Found? || (s.index > 0 && number <= ranges[s.index - 1].high))
  {
  }

  lemma WindowFromOne(ranges: Ranges, low: int, high: int)
    requires Canonical(ranges) && low >= 0
    ensures Members(ranges, low, high) == Members(ranges, if low < 1 then 1 else low, high)
    ensures high == 0 || high < low ==> Members(ranges, low, high) == {}
  {
  }

  lemma WindowSplit(ranges: Ranges, low: u64, high: u64)
    requires Canonical(ranges) && 1 <= low <= high
    ensures |Members(ranges, low as int, high as int)| <= Size(low as int, high as int)
    ensures |Interval(low as int, high as int) - Members(ranges, low as int, high as int)| ==
            Size(low as int, high as int) - |Members(ranges, low as int, high as int)|
  {
    var all, inside := Interval(low as int, high as int), Members(ranges, low as int, high as int);
    SubsetCardinality(inside, all);
    assert all == inside + (all - inside);
  }

  /** Cutting one number out of the range that holds it. */
  lemma RemoveAt(ranges: Ranges, index: nat, number: u64)
    requires Canonical(ranges) && index < |ranges| && ranges[index].low <= number <= ranges[index].high
    ensures var after := ranges[..index] + Outside(ranges[index], number, number) + ranges[index + 1..];
            Canonical(after) && forall n :: Has(after, n) <==> Has(ranges, n) && n != number as int
  {
    hide Has;
    var left, r, right := ranges[..index], ranges[index], ranges[index + 1..];
    SliceThree(ranges, index, index + 1);
    assert ranges[index..index + 1] == [r];
    var pieces := Outside(r, number, number);
    CanonicalPrefix(ranges, index);
    CanonicalPrefix(ranges, index + 1);
    CanonicalThree(left, pieces, right, r.low as int, r.high as int);
    HasOutside(r, number, number);
    forall n ensures Has(left + pieces + right, n) <==> Has(ranges, n) && n != number as int {
      HasThree(left, pieces, right, n);
      HasThree(left, [r], right, n);
      HasOne(r, n);
      Apart(left, right, ranges, index, n);
    }
  }

  /** Nothing on either side of a range reaches into it. */
  lemma Apart(left: Ranges, right: Ranges, ranges: Ranges, index: nat, n: int)
    requires Canonical(ranges) && index < |ranges| && left == ranges[..index] && right == ranges[index + 1..]
    ensures Has(left, n) ==> n < ranges[index].low as int
    ensures Has(right, n) ==> n > ranges[index].high as int
  {
  }

  lemma PositiveOnly(ranges: Ranges)
    requires Canonical(ranges)
    ensures forall n :: Has(ranges, n) ==> n >= 1
  {
  }

  lemma NothingHere()
    ensures Canonical([]) && forall n :: !Has([], n)
  {
  }

  class ReadSet {
    var ranges: Ranges

    ghost predicate Valid()
      reads this
    {
      Canonical(ranges)
    }

    ghost predicate Includes(n: int)
      reads this
    {
      Has(ranges, n)
    }

    constructor ()
      ensures Valid() && ranges == []
    {
      ranges := [];
    }

    /** A set that starts from ranges taken out of another. */
    constructor Of(ranges: Ranges)
      requires Canonical(ranges)
      ensures Valid() && this.ranges == ranges
    {
      this.ranges := ranges;
    }

    /** How many articles are marked read. */
    function Count(): (count: u64)
      requires Valid()
      reads this
      ensures count as int == |Members(ranges, 1, U64_MAX)|
    {
      SizeSumIsClipSum(ranges);
      ClipSumExact(ranges, 1, 0xFFFF_FFFF_FFFF_FFFF);
      Total(ranges)
    }

    /** Whether `number` is marked read. */
    predicate Contains(number: u64)
      requires Valid()
      reads this
      ensures Contains(number) <==> Includes(number as int)
    {
      ContainsExact(ranges, number);
      number != 0 &&
      match SearchLow(ranges, number)
      case Found(_) => true
      case Missing(index) => index > 0 && number <= ranges[index - 1].high
    }

    /** How many numbers in `low..=high` are marked read. */
    function ReadIn(low: u64, high: u64): (count: u64)
      requires Valid()
      reads this
      ensures count as int == |Members(ranges, low as int, high as int)|
    {
      WindowFromOne(ranges, low as int, high as int);
      if high == 0 || high < low then 0
      else
        ClipSumExact(ranges, Max(low, 1), high);
        ClipTotal(ranges, Max(low, 1), high)
    }

    /** How many positive numbers in `low..=high` are not marked read. */
    function UnreadIn(low: u64, high: u64): (count: u64)
      requires Valid()
      reads this
      ensures count as int == |Interval(Max(low, 1) as int, high as int) - Members(ranges, low as int, high as int)|
    {
      WindowFromOne(ranges, low as int, high as int);
      if high == 0 || high < low then 0
      else
        var from := Max(low, 1);
        var span := high - from + 1;
        WindowSplit(ranges, from, high);
        SaturatingSub(span, ReadIn(from, high))
    }

    /** Marks an inclusive range read, whichever way round its bounds are. */
    method InsertRange(low0: u64, high0: u64)
      requires Valid()
      modifies this
      ensures Valid()
      ensures forall n :: Includes(n) <==> old(Includes(n)) || Named(low0, high0, n)
    {
      var low, high := Min(low0, high0), Max(low0, high0);
      if high == 0 {
        return;
      }
      low := Max(low, 1);
      var mergeFrom := low - 1;
      var mergeTo := if high == 0xFFFF_FFFF_FFFF_FFFF then high else high + 1;
      var first := PartitionPoint(ranges, (r: Span) => r.high < mergeFrom);
      var last := PartitionPoint(ranges, (r: Span) => r.low <= mergeTo);
      MergeWindow(ranges, low, high, first, last);
      ghost var before := ranges;
      if first >= last {
        Merged(before, low, high, first, last, Span(low, high));
        ranges := ranges[..first] + [Span(low, high)] + ranges[first..];
        return;
      }
      var mergedLow, mergedHigh := low, high;
      for k := first to last
        invariant ranges == before
        invariant mergedLow == if k > first then Min(low, ranges[first].low) else low
        invariant mergedHigh == if k > first then Max(high, ranges[k - 1].high) else high
      {
        assert k > first ==> ranges[first].high as int + 1 < ranges[k].low as int
                             && ranges[k - 1].high as int + 1 < ranges[k].low as int;
        mergedLow := Min(mergedLow, ranges[k].low);
        mergedHigh := Max(mergedHigh, ranges[k].high);
      }
      Merged(before, low, high, first, last, Span(mergedLow, mergedHigh));
      ranges := ranges[..first] + [Span(mergedLow, mergedHigh)] + ranges[last..];
    }

    /** Marks a single article read. */
    method Insert(number: u64)
      requires Valid()
      modifies this
      ensures Valid()
      ensures forall n :: Includes(n) <==> old(Includes(n)) || (n == number as int && n > 0)
    {
      InsertRange(number, number);
    }

    /** Marks a range unread, splitting ranges as needed. */
    method RemoveRange(low0: u64, high0: u64)
      requires Valid()
      modifies this
      ensures Valid()
      ensures forall n :: Includes(n) <==> old(Includes(n)) && !Named(low0, high0, n)
    {
      hide Has, Canonical;
      PositiveOnly(ranges);
      NothingHere();
      var low, high := Min(low0, high0), Max(low0, high0);
      if high == 0 {
        return;
      }
      low := Max(low, 1);
      var kept: Ranges := [];
      for k := 0 to |ranges|
        invariant ranges == old(ranges) && Canonical(kept)
        invariant forall n :: Has(kept, n) <==> Has(ranges[..k], n) && !(low as int <= n <= high as int)
      {
        var r := ranges[k];
        assert ranges[..k + 1] == ranges[..k] + [r];
        CanonicalPrefix(ranges, k + 1);
        OutsideStep(ranges[..k], kept, r, low, high);
        ghost var after := kept + Outside(r, low, high);
        if r.high < low || r.low > high {
          kept := kept + [r];
          continue;
        }
        if r.low < low {
          kept := kept + [Span(r.low, low - 1)];
        }
        if r.high > high {
          kept := kept + [Span(high + 1, r.high)];
        }
        assert kept == after;
      }
      assert ranges[..|ranges|] == ranges;
      ranges := kept;
    }

    /** Marks a single article unread. */
    method Remove(number: u64)
      requires Valid()
      modifies this
      ensures Valid()
      ensures forall n :: Includes(n) <==> old(Includes(n)) && n != number as int
    {
      if number == 0 {
        assert forall n :: Has(ranges, n) ==> n >= 1;
        return;
      }
      ContainsExact(ranges, number);
      var search := SearchLow(ranges, number);
      if search == Missing(0) {
        return;
      }
      var index := if search.Found? then search.index else search.index - 1;
      var r := ranges[index];
      if number < r.low || number > r.high {
        return;
      }
      RemoveAt(ranges, index, number);
      var pieces :=
        if number == r.low && number == r.high then []
        else if number == r.low then [Span(r.low + 1, r.high)]
        else if number == r.high then [Span(r.low, r.high - 1)]
        else [Span(r.low, number - 1), Span(number + 1, r.high)];
      assert pieces == Outside(r, number, number);
      ranges := ranges[..index] + pieces + ranges[index + 1..];
    }
  }
}
