/** Splitting a subscription list over as few `LIST` commands as the command line allows. */
module Batching {
  import opened Options
  import opened Strings
  import opened Wildmats

  /** The joined length of patterns `i` up to `j`: their texts and the commas between them. */
  function JoinedLength(patterns: seq<Wildmat>, i: nat, j: nat): nat
    requires i <= j <= |patterns|
    decreases j
  {
    if i == j then 0
    else JoinedLength(patterns, i, j - 1) + |patterns[j - 1].text| + if i == j - 1 then 0 else 1
  }

  lemma {:induction false} LengthFront(patterns: seq<Wildmat>, i: nat, j: nat)
    requires i < j <= |patterns|
    ensures JoinedLength(patterns, i, j) ==
            |patterns[i].text| + if i + 1 == j then 0 else 1 + JoinedLength(patterns, i + 1, j)
    decreases j
  {
    if i + 1 < j {
      LengthFront(patterns, i, j - 1);
    }
  }

  /** A wider stretch is no shorter. */
  lemma {:induction false} LengthWider(patterns: seq<Wildmat>, i: nat, a: nat, b: nat, j: nat)
    requires i <= a <= b <= j <= |patterns|
    ensures JoinedLength(patterns, a, b) <= JoinedLength(patterns, i, j)
    decreases j - b, a - i
  {
    if b < j {
      LengthWider(patterns, i, a, b, j - 1);
    } else if i < a && a < b {
      LengthWider(patterns, i + 1, a, b, j);
      LengthFront(patterns, i, j);
    }
  }

  ghost predicate AllGraphic(text: string) {
    forall k :: 0 <= k < |text| ==> IsGraphic(text[k])
  }

  lemma {:induction false} JoinIsAsLong(patterns: seq<Wildmat>, i: nat, j: nat)
    requires i < j <= |patterns|
    requires forall k :: i <= k < j ==> Sendable(patterns[k].text)
    ensures |Join(Texts(patterns[i..j]), ',')| == JoinedLength(patterns, i, j)
    ensures AllGraphic(Join(Texts(patterns[i..j]), ','))
    ensures JoinedLength(patterns, i, j) > 0
    decreases j - i
  {
    var texts := Texts(patterns[i..j]);
    LengthFront(patterns, i, j);
    if i + 1 < j {
      JoinIsAsLong(patterns, i + 1, j);
      assert texts[1..] == Texts(patterns[i + 1..j]);
    }
  }

  /** One wildmat for patterns `i` up to `j`. */
  function Joined(patterns: seq<Wildmat>, i: nat, j: nat): Wildmat
    requires i < j <= |patterns|
  {
    Wildmat(Join(Texts(patterns[i..j]), ','))
  }

  /** `JoinPatterns` succeeds exactly when the joined text fits. */
  lemma JoinFits(patterns: seq<Wildmat>, i: nat, j: nat)
    requires i < j <= |patterns|
    requires forall k :: i <= k < j ==> Sendable(patterns[k].text)
    ensures JoinPatterns(patterns[i..j]) ==
            if JoinedLength(patterns, i, j) <= MAX_LEN then Ok(Some(Joined(patterns, i, j)))
            else Err(Joined(patterns, i, j).text)
  {
    JoinIsAsLong(patterns, i, j);
  }

  /** A contiguous split of `n` patterns into non-empty batches, as the positions between them. */
  ghost predicate IsSplit(cuts: seq<nat>, n: nat) {
    && |cuts| >= 1 && cuts[0] == 0 && cuts[|cuts| - 1] == n
    && forall k :: 0 <= k < |cuts| - 1 ==> cuts[k] < cuts[k + 1]
  }

  lemma {:induction false} CutsAscend(cuts: seq<nat>, a: nat, b: nat)
    requires a <= b < |cuts| && forall k :: 0 <= k < |cuts| - 1 ==> cuts[k] < cuts[k + 1]
    ensures cuts[a] <= cuts[b] && (a < b ==> cuts[a] < cuts[b])
    decreases b - a
  {
    if a < b {
      CutsAscend(cuts, a, b - 1);
      assert cuts[b - 1] < cuts[(b - 1) + 1];
    }
  }

  /** Every batch of the split fits on one command line. */
  ghost predicate Fits(patterns: seq<Wildmat>, cuts: seq<nat>) {
    && (forall k :: 0 <= k < |cuts| ==> cuts[k] <= |patterns|)
    && forall k :: 0 <= k < |cuts| - 1 ==> cuts[k] < cuts[k + 1] && JoinedLength(patterns, cuts[k], cuts[k + 1]) <= MAX_LEN
  }

  /** No batch but the last could have taken one pattern more. */
  ghost predicate Greedy(patterns: seq<Wildmat>, cuts: seq<nat>) {
    forall k :: 0 <= k < |cuts| - 2 ==> Full(patterns, cuts, k)
  }

  ghost predicate Full(patterns: seq<Wildmat>, cuts: seq<nat>, k: int)
    requires 0 <= k < |cuts| - 1
  {
    cuts[k] < cuts[k + 1] < |patterns| && JoinedLength(patterns, cuts[k], cuts[k + 1] + 1) > MAX_LEN
  }

  /** A greedy split stays ahead of every other. */
  lemma {:induction false} GreedyAhead(patterns: seq<Wildmat>, greedy: seq<nat>, other: seq<nat>, k: nat)
    requires IsSplit(greedy, |patterns|) && Greedy(patterns, greedy)
    requires IsSplit(other, |patterns|) && Fits(patterns, other)
    requires k < |other| && k < |greedy|
    ensures other[k] <= greedy[k]
  {
    if k > 0 {
      GreedyAhead(patterns, greedy, other, k - 1);
      if k == |greedy| - 1 {
        assert other[k] <= |patterns|;
      } else if other[k] > greedy[k] {
        assert greedy[k - 1] < greedy[(k - 1) + 1];
        assert Full(patterns, greedy, k - 1);
        assert JoinedLength(patterns, other[k - 1], other[(k - 1) + 1]) <= MAX_LEN;
        LengthWider(patterns, other[k - 1], greedy[k - 1], greedy[k] + 1, other[k]);
        assert false;
      }
    }
  }

  /** So no split that fits has fewer batches. */
  lemma GreedyFewest(patterns: seq<Wildmat>, greedy: seq<nat>, other: seq<nat>)
    requires IsSplit(greedy, |patterns|) && Greedy(patterns, greedy)
    requires IsSplit(other, |patterns|) && Fits(patterns, other)
    ensures |greedy| <= |other|
  {
    if |other| < |greedy| {
      GreedyAhead(patterns, greedy, other, |other| - 1);
      CutsAscend(greedy, |other| - 1, |greedy| - 1);
    }
  }

  function Flatten(r: Result<Option<Wildmat>, string>): Option<Wildmat> {
    if r.Ok? then r.value else None
  }

  function Present(batches: seq<Option<Wildmat>>): (kept: seq<Option<Wildmat>>)
    ensures (forall k :: 0 <= k < |batches| ==> batches[k].Some?) ==> kept == batches
  {
    if batches == [] then []
    else (if batches[0].Some? then [batches[0]] else []) + Present(batches[1..])
  }

  /** The batches are the joined stretches between the cuts. */
  ghost predicate Batches(patterns: seq<Wildmat>, cuts: seq<nat>, batches: seq<Option<Wildmat>>) {
    && |cuts| >= 1 && |batches| == |cuts| - 1
    && (forall k :: 0 <= k < |cuts| ==> cuts[k] <= |patterns|)
    && forall k {:trigger batches[k]} :: 0 <= k < |batches| ==>
         cuts[k] < cuts[k + 1] && batches[k] == Some(Joined(patterns, cuts[k], cuts[k + 1]))
  }

  /** The loop's view: batches closed so far, none of which could have taken one pattern more. */
  ghost predicate Closed(patterns: seq<Wildmat>, cuts: seq<nat>, batches: seq<Option<Wildmat>>) {
    && |cuts| >= 1 && cuts[0] == 0
    && Batches(patterns, cuts, batches) && Fits(patterns, cuts)
    && forall c :: 0 <= c < |cuts| - 1 ==> Full(patterns, cuts, c)
  }

  /** Closing a batch at `k`. */
  lemma CloseBatch(patterns: seq<Wildmat>, cuts: seq<nat>, batches: seq<Option<Wildmat>>, k: nat)
    requires forall i :: 0 <= i < |patterns| ==> Sendable(patterns[i].text)
    requires Closed(patterns, cuts, batches) && cuts[|cuts| - 1] < k <= |patterns|
    requires JoinedLength(patterns, cuts[|cuts| - 1], k) <= MAX_LEN
    ensures Flatten(JoinPatterns(patterns[cuts[|cuts| - 1]..k])) == Some(Joined(patterns, cuts[|cuts| - 1], k))
    ensures Batches(patterns, cuts + [k], batches + [Some(Joined(patterns, cuts[|cuts| - 1], k))])
    ensures Fits(patterns, cuts + [k])
    ensures k < |patterns| && JoinedLength(patterns, cuts[|cuts| - 1], k + 1) > MAX_LEN ==>
              Closed(patterns, cuts + [k], batches + [Some(Joined(patterns, cuts[|cuts| - 1], k))])
    ensures k == |patterns| ==> IsSplit(cuts + [k], |patterns|) && Greedy(patterns, cuts + [k])
  {
    hide JoinedLength, Joined, JoinPatterns, Sendable;
    var last := |cuts| - 1;
    var after := cuts + [k];
    JoinFits(patterns, cuts[last], k);
    forall c | 0 <= c < last ensures Full(patterns, after, c) {
      assert Full(patterns, cuts, c);
      assert after[c] == cuts[c] && after[c + 1] == cuts[c + 1];
    }
  }

  /** Where the batches among the first `n` patterns end: before every pattern that would not fit. */
  function CutsUpTo(patterns: seq<Wildmat>, n: nat): (cuts: seq<nat>)
    requires n <= |patterns|
    ensures cuts != [] && forall k :: 0 <= k < |cuts| ==> cuts[k] <= n
  {
    if n == 0 then [0]
    else
      var cuts := CutsUpTo(patterns, n - 1);
      var start := cuts[|cuts| - 1];
      if start < n - 1 && JoinedLength(patterns, start, n) > MAX_LEN then cuts + [n - 1] else cuts
  }

  /** Where the batches of a pattern list begin and end. */
  function BatchCuts(patterns: seq<Wildmat>): (cuts: seq<nat>)
    ensures forall k :: 0 <= k < |cuts| ==> cuts[k] <= |patterns|
  {
    if patterns == [] then [0] else CutsUpTo(patterns, |patterns|) + [|patterns|]
  }

  /** Groups patterns into `LIST` arguments: consecutive joined batches that each fit, every
      pattern in exactly one, and as few batches as any contiguous split that fits can have. No
      patterns means one unfiltered command. */
  method BatchPatterns(patterns: seq<Wildmat>) returns (batches: seq<Option<Wildmat>>, ghost cuts: seq<nat>)
    requires forall k :: 0 <= k < |patterns| ==> Sendable(patterns[k].text)
    ensures cuts == BatchCuts(patterns) && (patterns == [] ==> batches == [None])
    ensures patterns != [] ==>
              && IsSplit(cuts, |patterns|) && Batches(patterns, cuts, batches) && Fits(patterns, cuts)
              && forall other :: IsSplit(other, |patterns|) && Fits(patterns, other) ==> |cuts| <= |other|
  {
    hide Closed, Greedy, Full, Sendable, Flatten, JoinPatterns, Batches, Fits, IsSplit, Joined;
    cuts := [0];
    if patterns == [] {
      return [None], cuts;
    }
    batches := [];
    var current: seq<Wildmat> := [];
    var length := 0;
    ghost var start := 0;
    NothingClosed(patterns);
    for k := 0 to |patterns|
      invariant cuts != [] && cuts[|cuts| - 1] == start <= k && (k > 0 ==> start < k)
      invariant current == patterns[start..k] && length == JoinedLength(patterns, start, k) <= MAX_LEN
      invariant Closed(patterns, cuts, batches) && cuts == CutsUpTo(patterns, k)
    {
      var pattern := patterns[k];
      SingleFits(patterns, k);
      var addition := |pattern.text| + if current != [] then 1 else 0;
      if current != [] && length + addition > MAX_LEN {
        CloseBatch(patterns, cuts, batches, k);
        batches := batches + [Flatten(JoinPatterns(current))];
        cuts := cuts + [k];
        start := k;
        current := [];
        length := 0;
      }
      length := length + |pattern.text| + if current != [] then 1 else 0;
      current := current + [pattern];
    }
    CloseBatch(patterns, cuts, batches, |patterns|);
    batches := batches + [Flatten(JoinPatterns(current))];
    cuts := cuts + [|patterns|];
    AllPresent(patterns, cuts, batches);
    batches := Present(batches);
    if batches == [] {
      batches := [None];
    }
    forall other | IsSplit(other, |patterns|) && Fits(patterns, other) ensures |cuts| <= |other| {
      GreedyFewest(patterns, cuts, other);
    }
  }

  lemma AllPresent(patterns: seq<Wildmat>, cuts: seq<nat>, batches: seq<Option<Wildmat>>)
    requires Batches(patterns, cuts, batches) && IsSplit(cuts, |patterns|) && patterns != []
    ensures Present(batches) == batches && batches != []
  {
  }

  lemma NothingClosed(patterns: seq<Wildmat>)
    ensures Closed(patterns, [0], [])
  {
  }

  lemma SingleFits(patterns: seq<Wildmat>, k: nat)
    requires k < |patterns| && Sendable(patterns[k].text)
    ensures JoinedLength(patterns, k, k) == 0 && JoinedLength(patterns, k, k + 1) == |patterns[k].text| <= MAX_LEN
  {
  }
}
