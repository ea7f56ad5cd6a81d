/** Ranges of article numbers, and splitting one into chunks. */
module Ranges {
  import opened Options
  import opened ReadSets

  datatype Range =
    | Single(number: u64)
    | Between(low: u64, high: u64)
    | From(first: u64)
  {
    predicate Contains(n: u64) {
      match this
      case Single(number) => n == number
      case Between(low, high) => low <= n <= high
      case From(first) => first <= n
    }
  }

  /** An inclusive range, whichever way round its bounds are. */
  function MakeBetween(low: u64, high: u64): (r: Range)
    ensures r.Between? && r.low <= r.high
    ensures forall n: u64 :: r.Contains(n) <==> Min(low, high) <= n <= Max(low, high)
  {
    if low <= high then Between(low, high) else Between(high, low)
  }

  function SaturatingAdd(a: u64, b: u64): u64 {
    if a as int + b as int <= U64_MAX then a + b else 0xFFFF_FFFF_FFFF_FFFF
  }

  // ----- counting -----

  /** How many numbers a range spans, unless it is open, or the arithmetic does not fit 64 bits. */
  datatype Counted = Numbers(count: u64) | Unbounded | Overflow

  function CheckedSub(a: u64, b: u64): Option<u64> {
    if a >= b then Some(a - b) else None
  }

  function CheckedAdd(a: u64, b: u64): Option<u64> {
    if a as int + b as int <= U64_MAX then Some(a + b) else None
  }

  function Count(r: Range): Counted {
    match r
    case Single(_) => Numbers(1)
    case From(_) => Unbounded
    case Between(low, high) =>
      match CheckedSub(high, low)
      case None => Overflow
      case Some(width) =>
        match CheckedAdd(width, 1)
        case None => Overflow
        case Some(count) => Numbers(count)
  }

  /** The numbers of a bounded range. */
  ghost function Numbered(r: Range): set<int>
    requires !r.From?
  {
    match r
    case Single(n) => {n as int}
    case Between(low, high) => Interval(low as int, high as int)
  }

  /** Counting works if and only if the bounds are in order and are not those of all 64-bit numbers, and
      then it is exact. */
  lemma CountExactIff(r: Range)
    requires r.Between?
    ensures Count(r).Numbers? <==> r.low <= r.high && !(r.low == 0 && r.high == 0xFFFF_FFFF_FFFF_FFFF)
    ensures Count(r).Numbers? ==> Count(r).count as int == |Numbered(r)|
  {
  }

  /** The same sum when overflow wraps around instead of being caught. */
  function WrappedCount(low: u64, high: u64): u64 {
    ((high as int - low as int + 1) % 0x1_0000_0000_0000_0000) as u64
  }

  /** Wrapped around it is still right for one more family: bounds that are one step out of order, where
      nothing is in the range and zero comes out. */
  lemma WrappedCountExactIff(low: u64, high: u64)
    ensures WrappedCount(low, high) as int == |Numbered(Between(low, high))| <==>
              (low <= high && !(low == 0 && high == 0xFFFF_FFFF_FFFF_FFFF)) || low as int == high as int + 1
  {
  }

  lemma CountCanFail()
    ensures Count(Between(5, 3)) == Overflow && WrappedCount(5, 3) == 0xFFFF_FFFF_FFFF_FFFF
    ensures Count(Between(0, 0xFFFF_FFFF_FFFF_FFFF)) == Overflow && WrappedCount(0, 0xFFFF_FFFF_FFFF_FFFF) == 0
  {
  }

  // ----- chunks -----

  /** Consecutive ranges, in order, of at most `chunk` numbers each, that cover `low..=high`. */
  ghost predicate Partitions(parts: seq<Range>, low: u64, high: u64, chunk: u64) {
    && parts != []
    && (forall k :: 0 <= k < |parts| ==>
          parts[k].Between? && parts[k].low <= parts[k].high && parts[k].high - parts[k].low < chunk)
    && parts[0].low == low && parts[|parts| - 1].high == high
    && (forall k :: 0 <= k < |parts| - 1 ==> parts[k].high as int + 1 == parts[k + 1].low as int)
  }

  /** What splitting a range gives: an unbounded range and a zero chunk are left whole. */
  ghost predicate Split(r: Range, chunk: u64, parts: seq<Range>) {
    if !r.Between? then parts == [r]
    else if chunk == 0 || r.low > r.high then parts == [MakeBetween(r.low, r.high)]
    else Partitions(parts, r.low, r.high, chunk) && forall k :: 0 <= k < |parts| - 1 ==> parts[k].high - parts[k].low == chunk - 1
  }

  method Chunks(r: Range, chunk: u64) returns (parts: seq<Range>)
    ensures Split(r, chunk, parts)
  {
    if !r.Between? {
      return [r];
    }
    var low, high := r.low, r.high;
    if chunk == 0 {
      return [MakeBetween(low, high)];
    }
    parts := [];
    var start := low;
    while true
      invariant low <= high ==> low <= start <= high
      invariant low > high ==> parts == [] && start == low
      invariant parts == [] ==> start == low
      invariant forall k :: 0 <= k < |parts| ==>
                  parts[k].Between? && parts[k].low <= parts[k].high && parts[k].high - parts[k].low == chunk - 1
      invariant forall k :: 0 <= k < |parts| - 1 ==> parts[k].high as int + 1 == parts[k + 1].low as int
      invariant parts != [] ==> parts[0].low == low && parts[|parts| - 1].high as int + 1 == start as int
      decreases high as int - start as int
    {
      var end := Min(SaturatingAdd(start, chunk - 1), high);
      parts := parts + [MakeBetween(start, end)];
      if end >= high {
        break;
      }
      start := end + 1;
    }
  }

  /** Every number of the range is in exactly one chunk, and no chunk holds any other. */
  lemma ChunksPartition(parts: seq<Range>, low: u64, high: u64, chunk: u64, n: u64)
    requires Partitions(parts, low, high, chunk)
    ensures low <= n <= high <==> exists k :: 0 <= k < |parts| && parts[k].Contains(n)
    ensures forall i, j :: 0 <= i < j < |parts| ==> !(parts[i].Contains(n) && parts[j].Contains(n))
  {
    ChunksAscend(parts, low, high, chunk);
    if low <= n <= high {
      var k := ChunkOf(parts, low, high, chunk, n, |parts|);
    }
  }

  ghost predicate SomeChunk(parts: seq<Range>, n: u64) {
    exists k :: 0 <= k < |parts| && parts[k].Contains(n)
  }

  /** The chunks hold exactly the numbers of the range if and only if its bounds are in order. */
  lemma ChunksExactIff(r: Range, chunk: u64, parts: seq<Range>)
    requires r.Between? && Split(r, chunk, parts)
    ensures (forall n: u64 :: SomeChunk(parts, n) <==> r.Contains(n)) <==> r.low <= r.high
  {
    if r.low > r.high {
      assert parts[0].Contains(r.low) && !r.Contains(r.low);
      assert SomeChunk(parts, r.low);
    } else if chunk == 0 {
      forall n: u64 ensures SomeChunk(parts, n) <==> r.Contains(n) {
        if r.Contains(n) { assert parts[0].Contains(n); }
      }
    } else {
      forall n: u64 ensures SomeChunk(parts, n) <==> r.Contains(n) {
        ChunksPartition(parts, r.low, r.high, chunk, n);
      }
    }
  }

  /** Bounds out of order name no number, and are sent as a range of three. */
  lemma ReversedIsSwapped(parts: seq<Range>)
    requires Split(Between(5, 3), 2, parts)
    ensures parts == [Between(3, 5)] && forall n: u64 :: !Between(5, 3).Contains(n)
  {
  }

  lemma ChunksAscend(parts: seq<Range>, low: u64, high: u64, chunk: u64)
    requires Partitions(parts, low, high, chunk)
    ensures forall i, j :: 0 <= i < j < |parts| ==> parts[i].high < parts[j].low
  {
    forall i, j | 0 <= i < j < |parts| ensures parts[i].high < parts[j].low {
      ChunkBefore(parts, low, high, chunk, i, j);
    }
  }

  lemma {:induction false} ChunkBefore(parts: seq<Range>, low: u64, high: u64, chunk: u64, i: nat, j: nat)
    requires Partitions(parts, low, high, chunk) && i < j < |parts|
    ensures parts[i].high < parts[j].low
    decreases j
  {
    assert parts[j - 1].high as int + 1 == parts[j].low as int;
    if i < j - 1 {
      ChunkBefore(parts, low, high, chunk, i, j - 1);
    }
  }

  lemma {:induction false} ChunkOf(parts: seq<Range>, low: u64, high: u64, chunk: u64, n: u64, m: nat) returns (k: nat)
    requires Partitions(parts, low, high, chunk) && 0 < m <= |parts| && low <= n <= parts[m - 1].high
    ensures k < |parts| && parts[k].Contains(n)
  {
    if parts[m - 1].low <= n {
      k := m - 1;
    } else {
      assert parts[m - 2].high as int + 1 == parts[m - 1].low as int;
      k := ChunkOf(parts, low, high, chunk, n, m - 1);
    }
  }
}
