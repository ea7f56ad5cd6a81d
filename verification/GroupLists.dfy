/** Fetching the groups a reader asked for: one `LIST` command per batch of patterns, or the whole
    catalogue filtered here when the server refuses a pattern. */
module GroupLists {
  import opened Options
  import opened Sequences
  import opened Strings
  import opened Wildmats
  import opened Batching

  datatype Entry = Entry(name: string, low: nat, high: nat)

  // ----- listing by name -----

  const BY_NAME: (Entry, Entry) -> bool := (a: Entry, b: Entry) => NameLeq(a.name, b.name)

  lemma ByNameOrders()
    ensures Ordering(BY_NAME)
  {
    forall a, b ensures BY_NAME(a, b) || BY_NAME(b, a) {
      NameTotal(a.name, b.name);
    }
    forall a, b, c | BY_NAME(a, b) && BY_NAME(b, c) ensures BY_NAME(a, c) {
      NameTransitive(a.name, b.name, c.name);
    }
  }

  // ----- sorting and removing repeats -----

  /** Removes every entry that repeats the name of the one before it. */
  function Dedup(s: seq<Entry>): (r: seq<Entry>)
    ensures |r| <= |s| && (s != [] ==> r != [] && r[0] == s[0])
    decreases |s|
  {
    if |s| <= 1 then s
    else if s[0].name == s[1].name then Dedup([s[0]] + s[2..])
    else [s[0]] + Dedup(s[1..])
  }

  function Listing(s: seq<Entry>): seq<Entry> {
    Dedup(SortBy(s, BY_NAME))
  }

  /** The first entry with a name, if there is one. */
  function Find(s: seq<Entry>, name: string): (found: Option<Entry>)
    ensures found.Some? ==> found.value in s && found.value.name == name
    ensures found.None? <==> forall e :: e in s ==> e.name != name
  {
    if s == [] then None
    else if s[0].name == name then Some(s[0])
    else
      assert forall e :: e in s <==> e == s[0] || e in s[1..];
      Find(s[1..], name)
  }

  ghost predicate StrictlyByName(s: seq<Entry>) {
    forall i, j :: 0 <= i < j < |s| ==> NameLeq(s[i].name, s[j].name) && s[i].name != s[j].name
  }

  lemma {:induction false} FindInserted(x: Entry, s: seq<Entry>, name: string)
    ensures Find(InsertBy(x, s, BY_NAME), name) == if x.name == name then Some(x) else Find(s, name)
  {
    if !(s == [] || BY_NAME(x, s[0])) {
      FindInserted(x, s[1..], name);
      NameTotal(x.name, x.name);
    } else {
      assert ([x] + s)[1..] == s;
    }
  }

  lemma {:induction false} FindSorted(s: seq<Entry>, name: string)
    ensures Find(SortBy(s, BY_NAME), name) == Find(s, name)
  {
    if s != [] {
      FindSorted(s[1..], name);
      FindInserted(s[0], SortBy(s[1..], BY_NAME), name);
    }
  }

  lemma {:induction false} FindDeduped(s: seq<Entry>, name: string)
    ensures Find(Dedup(s), name) == Find(s, name)
    decreases |s|
  {
    if |s| > 1 {
      if s[0].name == s[1].name {
        var shorter := [s[0]] + s[2..];
        FindDeduped(shorter, name);
        assert shorter[1..] == s[2..] == s[1..][1..];
      } else {
        FindDeduped(s[1..], name);
        assert ([s[0]] + Dedup(s[1..]))[1..] == Dedup(s[1..]);
      }
    }
  }

  lemma {:induction false} DedupStrict(s: seq<Entry>)
    requires SortedBy(s, BY_NAME)
    ensures StrictlyByName(Dedup(s))
    decreases |s|
  {
    if |s| > 1 {
      if s[0].name == s[1].name {
        var shorter := [s[0]] + s[2..];
        assert forall i :: 0 < i < |shorter| ==> shorter[i] == s[i + 1];
        DedupStrict(shorter);
      } else {
        DedupStrict(s[1..]);
        DedupMembers(s[1..]);
        var rest := Dedup(s[1..]);
        forall k | 0 <= k < |rest| ensures NameLeq(s[0].name, rest[k].name) && s[0].name != rest[k].name {
          assert rest[k] in s[1..];
          var i :| 1 <= i < |s| && s[i] == rest[k];
          assert BY_NAME(s[0], s[i]) && BY_NAME(s[0], s[1]);
          if i > 1 {
            assert BY_NAME(s[1], s[i]);
          }
          NameTotal(s[0].name, s[1].name);
        }
      }
    }
  }

  lemma {:induction false} DedupMembers(s: seq<Entry>)
    ensures forall e :: e in Dedup(s) ==> e in s
    decreases |s|
  {
    if |s| > 1 {
      if s[0].name == s[1].name {
        DedupMembers([s[0]] + s[2..]);
      } else {
        DedupMembers(s[1..]);
      }
    }
  }

  lemma ListingFacts(s: seq<Entry>, name: string)
    ensures StrictlyByName(Listing(s)) && Find(Listing(s), name) == Find(s, name)
  {
    ByNameOrders();
    SortKeeps(s, BY_NAME);
    DedupStrict(SortBy(s, BY_NAME));
    FindDeduped(SortBy(s, BY_NAME), name);
    FindSorted(s, name);
  }

  /** A list strictly sorted by name is determined by what it finds for each name. */
  lemma {:induction false} SameFinds(a: seq<Entry>, b: seq<Entry>)
    requires StrictlyByName(a) && StrictlyByName(b)
    requires forall name :: Find(a, name) == Find(b, name)
    ensures a == b
  {
    if a == [] || b == [] {
      if a != [] { FindHead(a); }
      if b != [] { FindHead(b); }
    } else {
      SameHeads(a, b);
      forall name ensures Find(a[1..], name) == Find(b[1..], name) {
        assert Find(a, name) == Find(b, name);
        if name == a[0].name {
          assert Find(a[1..], name).None? && Find(b[1..], name).None?;
        }
      }
      SameFinds(a[1..], b[1..]);
    }
  }

  lemma FindHead(s: seq<Entry>)
    requires s != []
    ensures Find(s, s[0].name) == Some(s[0])
  {
  }

  lemma SameHeads(a: seq<Entry>, b: seq<Entry>)
    requires StrictlyByName(a) && StrictlyByName(b) && a != [] && b != []
    requires forall name :: Find(a, name) == Find(b, name)
    ensures a[0] == b[0]
  {
    FindHead(a);
    FindHead(b);
    assert Find(b, a[0].name) == Some(a[0]) && Find(a, b[0].name) == Some(b[0]);
    var i :| 0 <= i < |b| && b[i] == a[0];
    var j :| 0 <= j < |a| && a[j] == b[0];
    NameTotal(a[0].name, a[0].name);
    NameTotal(b[0].name, b[0].name);
    NameTotal(a[0].name, b[0].name);
    assert NameLeq(a[0].name, a[j].name) && NameLeq(b[0].name, b[i].name);
  }

  /** Two fetches that find the same entry for every name list the same groups. */
  lemma SameListing(a: seq<Entry>, b: seq<Entry>)
    requires forall name :: Find(a, name) == Find(b, name)
    ensures Listing(a) == Listing(b)
  {
    forall name ensures Find(Listing(a), name) == Find(Listing(b), name) {
      ListingFacts(a, name);
      ListingFacts(b, name);
    }
    ListingFacts(a, "");
    ListingFacts(b, "");
    SameFinds(Listing(a), Listing(b));
  }

  // ----- what is asked for -----

  /** The entries whose names satisfy a condition, in order. */
  ghost function Filtered(s: seq<Entry>, wanted: string -> bool): seq<Entry> {
    if s == [] then []
    else (if wanted(s[0].name) then [s[0]] else []) + Filtered(s[1..], wanted)
  }

  lemma {:induction false} FindFiltered(s: seq<Entry>, wanted: string -> bool, name: string)
    ensures Find(Filtered(s, wanted), name) == if wanted(name) then Find(s, name) else None
  {
    if s != [] {
      FindFiltered(s[1..], wanted, name);
      var rest := Filtered(s[1..], wanted);
      assert ([s[0]] + rest)[1..] == rest;
      assert [] + rest == rest;
    }
  }

  /** What a server that takes patterns answers: the entries its wildmat selects, or everything
      for no wildmat. */
  ghost function Served(catalogue: seq<Entry>, pattern: Option<Wildmat>): seq<Entry> {
    Filtered(catalogue, name => pattern.None? || Chooses(pattern.value, name))
  }

  /** What filtering here keeps: the entries some pattern selects, or everything for no pattern. */
  ghost predicate Wanted(patterns: seq<Wildmat>, name: string) {
    patterns == [] || exists i :: 0 <= i < |patterns| && Chooses(patterns[i], name)
  }

  ghost function Subscribed(catalogue: seq<Entry>, patterns: seq<Wildmat>): seq<Entry> {
    Filtered(catalogue, name => Wanted(patterns, name))
  }

  /** The answers to the first `n` batches, one after another. */
  ghost function Fetched(catalogue: seq<Entry>, batches: seq<Option<Wildmat>>, n: nat): seq<Entry>
    requires n <= |batches|
  {
    if n == 0 then [] else Fetched(catalogue, batches, n - 1) + Served(catalogue, batches[n - 1])
  }

  lemma {:induction false} FindConcat(a: seq<Entry>, b: seq<Entry>, name: string)
    ensures Find(a + b, name) == if Find(a, name).Some? then Find(a, name) else Find(b, name)
  {
    if a == [] {
      assert a + b == b;
    } else {
      FindConcat(a[1..], b, name);
      assert (a + b)[1..] == a[1..] + b;
    }
  }

  ghost predicate SomeBatch(batches: seq<Option<Wildmat>>, n: nat, name: string)
    requires n <= |batches|
  {
    exists k :: 0 <= k < n && (batches[k].None? || Chooses(batches[k].value, name))
  }

  lemma {:induction false} FindFetched(catalogue: seq<Entry>, batches: seq<Option<Wildmat>>, n: nat, name: string)
    requires n <= |batches|
    ensures Find(Fetched(catalogue, batches, n), name) ==
            if SomeBatch(batches, n, name) then Find(catalogue, name) else None
  {
    hide Chooses, Find, Filtered, SomeBatch, Served;
    if n == 0 {
      NothingFetched(batches, name);
    } else {
      FindFetched(catalogue, batches, n - 1, name);
      SomeBatchStep(batches, n, name);
      var pattern := batches[n - 1];
      FindServed(catalogue, pattern, name);
      FindConcat(Fetched(catalogue, batches, n - 1), Served(catalogue, pattern), name);
    }
  }

  lemma NothingFetched(batches: seq<Option<Wildmat>>, name: string)
    ensures Find([], name).None? && !SomeBatch(batches, 0, name)
  {
  }

  lemma SomeBatchStep(batches: seq<Option<Wildmat>>, n: nat, name: string)
    requires 0 < n <= |batches|
    ensures SomeBatch(batches, n, name) <==>
            SomeBatch(batches, n - 1, name) || batches[n - 1].None? || Chooses(batches[n - 1].value, name)
  {
  }

  lemma FindServed(catalogue: seq<Entry>, pattern: Option<Wildmat>, name: string)
    ensures Find(Served(catalogue, pattern), name) ==
            if pattern.None? || Chooses(pattern.value, name) then Find(catalogue, name) else None
  {
    FindFiltered(catalogue, x => pattern.None? || Chooses(pattern.value, x), name);
  }

  /** Among patterns `lo` up to `hi` one chooses the name, and none after it touches the name. */
  ghost predicate Unvetoed(patterns: seq<Wildmat>, lo: nat, hi: nat, name: string)
    requires lo <= hi <= |patterns|
  {
    exists i :: lo <= i < hi && ChosenWithin(patterns, hi, name, i)
  }

  ghost predicate ChosenWithin(patterns: seq<Wildmat>, hi: nat, name: string, i: int)
    requires hi <= |patterns|
  {
    && 0 <= i < hi && Chooses(patterns[i], name)
    && forall j :: i < j < hi ==> !Touches(Split(patterns[j].text, ','), name)
  }

  /** One command for a stretch of patterns selects what is not vetoed within the stretch. */
  lemma StretchSelects(patterns: seq<Wildmat>, lo: nat, hi: nat, name: string)
    requires lo < hi <= |patterns|
    ensures Chooses(Joined(patterns, lo, hi), name) <==> Unvetoed(patterns, lo, hi, name)
  {
    hide Chooses, Touches, Split, Join;
    var part := patterns[lo..hi];
    JoinedChooses(part, name);
    assert forall j :: lo <= j < hi ==> patterns[j] == part[j - lo];
    if i :| ChosenLast(part, name, i) {
      forall j | lo + i < j < hi ensures !Touches(Split(patterns[j].text, ','), name) {
        assert patterns[j] == part[j - lo];
      }
      assert ChosenWithin(patterns, hi, name, lo + i);
    }
    if i :| lo <= i < hi && ChosenWithin(patterns, hi, name, i) {
      forall j | i - lo < j < |part| ensures !Touches(Split(part[j].text, ','), name) {
        assert part[j] == patterns[j + lo];
      }
      assert ChosenLast(part, name, i - lo);
    }
  }

  lemma JoinedChooses(patterns: seq<Wildmat>, name: string)
    requires patterns != []
    ensures Chooses(Wildmat(Join(Texts(patterns), ',')), name) <==> exists i :: ChosenLast(patterns, name, i)
  {
    JoinedSelects(patterns, name);
  }

  /** Some batch asks for the name. No patterns ask for every name. */
  ghost predicate AskedFor(patterns: seq<Wildmat>, cuts: seq<nat>, name: string)
    requires forall k :: 0 <= k < |cuts| ==> cuts[k] <= |patterns|
  {
    patterns == [] ||
    exists k :: 0 <= k < |cuts| - 1 && cuts[k] <= cuts[k + 1] && Unvetoed(patterns, cuts[k], cuts[k + 1], name)
  }

  /** Every position lies between two neighbouring cuts. */
  lemma {:induction false} CutAround(cuts: seq<nat>, n: nat, i: nat) returns (k: nat)
    requires n < |cuts| && |cuts| >= 1 && cuts[0] == 0 && i < cuts[n]
    ensures k < n && cuts[k] <= i < cuts[k + 1]
  {
    if cuts[n - 1] <= i {
      k := n - 1;
    } else {
      k := CutAround(cuts, n - 1, i);
    }
  }

  /** What the batches ask for, some pattern wants. */
  lemma AskedIsWanted(patterns: seq<Wildmat>, cuts: seq<nat>, name: string)
    requires forall k :: 0 <= k < |cuts| ==> cuts[k] <= |patterns|
    ensures AskedFor(patterns, cuts, name) ==> Wanted(patterns, name)
  {
  }

  lemma BatchesAsk(patterns: seq<Wildmat>, cuts: seq<nat>, batches: seq<Option<Wildmat>>, name: string)
    requires if patterns == [] then batches == [None] && cuts == [0] else Batches(patterns, cuts, batches)
    ensures SomeBatch(batches, |batches|, name) <==> AskedFor(patterns, cuts, name)
  {
    hide Chooses, Unvetoed;
    if patterns == [] {
      assert batches[0].None?;
    } else {
      forall k | 0 <= k < |batches|
        ensures Chooses(batches[k].value, name) <==> Unvetoed(patterns, cuts[k], cuts[k + 1], name)
      {
        StretchSelects(patterns, cuts[k], cuts[k + 1], name);
      }
    }
  }

  // ----- when the ways of narrowing agree -----

  /** Listing the same groups is finding the same entry for each name. */
  lemma SameFound(a: seq<Entry>, b: seq<Entry>, name: string)
    requires Listing(a) == Listing(b)
    ensures Find(a, name) == Find(b, name)
  {
    hide Find, Listing;
    ListingFacts(a, name);
    ListingFacts(b, name);
  }

  /** Asking for less lists the same groups exactly when no entry of the catalogue falls in between. */
  lemma NarrowerListing(catalogue: seq<Entry>, narrow: string -> bool, wide: string -> bool)
    requires forall name :: narrow(name) ==> wide(name)
    ensures Listing(Filtered(catalogue, narrow)) == Listing(Filtered(catalogue, wide)) <==>
            forall e :: e in catalogue && wide(e.name) ==> narrow(e.name)
  {
    hide Find, Filtered, Listing;
    var a, b := Filtered(catalogue, narrow), Filtered(catalogue, wide);
    if Listing(a) == Listing(b) {
      forall e | e in catalogue && wide(e.name) ensures narrow(e.name) {
        SameFound(a, b, e.name);
        FindFiltered(catalogue, narrow, e.name);
        FindFiltered(catalogue, wide, e.name);
      }
    } else if forall e :: e in catalogue && wide(e.name) ==> narrow(e.name) {
      forall name ensures Find(a, name) == Find(b, name) {
        FindFiltered(catalogue, narrow, name);
        FindFiltered(catalogue, wide, name);
      }
      SameListing(a, b);
    }
  }

  /** What the batches fetch is what they ask for. */
  ghost function BatchSubscribed(catalogue: seq<Entry>, patterns: seq<Wildmat>, cuts: seq<nat>): seq<Entry>
    requires forall k :: 0 <= k < |cuts| ==> cuts[k] <= |patterns|
  {
    Filtered(catalogue, name => AskedFor(patterns, cuts, name))
  }

  lemma FetchedListing(catalogue: seq<Entry>, patterns: seq<Wildmat>, cuts: seq<nat>, batches: seq<Option<Wildmat>>)
    requires if patterns == [] then batches == [None] && cuts == [0] else Batches(patterns, cuts, batches)
    ensures Listing(Fetched(catalogue, batches, |batches|)) == Listing(BatchSubscribed(catalogue, patterns, cuts))
  {
    hide Find, Filtered, Listing, AskedFor, SomeBatch, Batches;
    CutsWithin(patterns, cuts, batches);
    forall name
      ensures Find(Fetched(catalogue, batches, |batches|), name) == Find(BatchSubscribed(catalogue, patterns, cuts), name)
    {
      FindFetched(catalogue, batches, |batches|, name);
      FindFiltered(catalogue, x => AskedFor(patterns, cuts, x), name);
      BatchesAsk(patterns, cuts, batches, name);
    }
    SameListing(Fetched(catalogue, batches, |batches|), BatchSubscribed(catalogue, patterns, cuts));
  }

  lemma CutsWithin(patterns: seq<Wildmat>, cuts: seq<nat>, batches: seq<Option<Wildmat>>)
    requires if patterns == [] then batches == [None] && cuts == [0] else Batches(patterns, cuts, batches)
    ensures forall k :: 0 <= k < |cuts| ==> cuts[k] <= |patterns|
  {
  }

  /** Filtering here lists what one command for all the patterns lists if and only if every group some
      pattern chooses is chosen by one that no later pattern touches; and it lists what the batches
      list if and only if that holds within some batch. */
  lemma ListingsAgree(catalogue: seq<Entry>, patterns: seq<Wildmat>, cuts: seq<nat>, batches: seq<Option<Wildmat>>)
    requires patterns != [] && Batches(patterns, cuts, batches)
    ensures Listing(Served(catalogue, Some(Joined(patterns, 0, |patterns|)))) == Listing(Subscribed(catalogue, patterns)) <==>
            forall e :: e in catalogue && Wanted(patterns, e.name) ==> Unvetoed(patterns, 0, |patterns|, e.name)
    ensures Listing(Fetched(catalogue, batches, |batches|)) == Listing(Subscribed(catalogue, patterns)) <==>
            forall e :: e in catalogue && Wanted(patterns, e.name) ==> AskedFor(patterns, cuts, e.name)
  {
    JoinedAgrees(catalogue, patterns);
    BatchesAgree(catalogue, patterns, cuts, batches);
  }

  lemma JoinedAgrees(catalogue: seq<Entry>, patterns: seq<Wildmat>)
    requires patterns != []
    ensures Listing(Served(catalogue, Some(Joined(patterns, 0, |patterns|)))) == Listing(Subscribed(catalogue, patterns)) <==>
            forall e :: e in catalogue && Wanted(patterns, e.name) ==> Unvetoed(patterns, 0, |patterns|, e.name)
  {
    hide Filtered, Listing, Chooses, Joined;
    var joined: Option<Wildmat> := Some(Joined(patterns, 0, |patterns|));
    var narrow := (name: string) => joined.None? || Chooses(joined.value, name);
    var wide := (name: string) => Wanted(patterns, name);
    forall name ensures narrow(name) <==> Unvetoed(patterns, 0, |patterns|, name) {
      StretchSelects(patterns, 0, |patterns|, name);
    }
    SameFilter(catalogue, narrow, joined);
    SameWanted(catalogue, patterns, wide);
    NarrowerListing(catalogue, narrow, wide);
  }

  lemma {:induction false} SameFilter(catalogue: seq<Entry>, narrow: string -> bool, pattern: Option<Wildmat>)
    requires forall name :: narrow(name) <==> pattern.None? || Chooses(pattern.value, name)
    ensures Served(catalogue, pattern) == Filtered(catalogue, narrow)
  {
    hide Chooses;
    if catalogue != [] {
      SameFilter(catalogue[1..], narrow, pattern);
    }
  }

  lemma {:induction false} SameWanted(catalogue: seq<Entry>, patterns: seq<Wildmat>, wide: string -> bool)
    requires forall name :: wide(name) <==> Wanted(patterns, name)
    ensures Subscribed(catalogue, patterns) == Filtered(catalogue, wide)
  {
    hide Wanted;
    if catalogue != [] {
      SameWanted(catalogue[1..], patterns, wide);
    }
  }

  lemma {:induction false} SameAsked(catalogue: seq<Entry>, patterns: seq<Wildmat>, cuts: seq<nat>, narrow: string -> bool)
    requires forall k :: 0 <= k < |cuts| ==> cuts[k] <= |patterns|
    requires forall name :: narrow(name) <==> AskedFor(patterns, cuts, name)
    ensures BatchSubscribed(catalogue, patterns, cuts) == Filtered(catalogue, narrow)
  {
    hide AskedFor;
    if catalogue != [] {
      SameAsked(catalogue[1..], patterns, cuts, narrow);
    }
  }

  /** The batches list what filtering here lists if and only if every group that some pattern chooses is
      asked for by some batch. */
  lemma BatchesAgree(catalogue: seq<Entry>, patterns: seq<Wildmat>, cuts: seq<nat>, batches: seq<Option<Wildmat>>)
    requires if patterns == [] then batches == [None] && cuts == [0] else Batches(patterns, cuts, batches)
    ensures forall k :: 0 <= k < |cuts| ==> cuts[k] <= |patterns|
    ensures Listing(Fetched(catalogue, batches, |batches|)) == Listing(Subscribed(catalogue, patterns)) <==>
            forall e :: e in catalogue && Wanted(patterns, e.name) ==> AskedFor(patterns, cuts, e.name)
  {
    hide Filtered, Listing, AskedFor, Wanted, Batches, Fetched;
    CutsWithin(patterns, cuts, batches);
    FetchedListing(catalogue, patterns, cuts, batches);
    var narrow := (name: string) => AskedFor(patterns, cuts, name);
    var wide := (name: string) => Wanted(patterns, name);
    forall name ensures narrow(name) ==> wide(name) {
      AskedIsWanted(patterns, cuts, name);
    }
    SameAsked(catalogue, patterns, cuts, narrow);
    SameWanted(catalogue, patterns, wide);
    NarrowerListing(catalogue, narrow, wide);
  }

  /** Without negated sub-patterns both conditions hold, so all three ways list the same groups. */
  lemma PlainListingsAgree(catalogue: seq<Entry>, patterns: seq<Wildmat>, cuts: seq<nat>, batches: seq<Option<Wildmat>>)
    requires patterns != [] && IsSplit(cuts, |patterns|) && Batches(patterns, cuts, batches)
    requires forall i :: 0 <= i < |patterns| ==> Plain(patterns[i])
    ensures Listing(Served(catalogue, Some(Joined(patterns, 0, |patterns|)))) == Listing(Subscribed(catalogue, patterns))
    ensures Listing(Fetched(catalogue, batches, |batches|)) == Listing(Subscribed(catalogue, patterns))
  {
    hide Listing, Served, Subscribed, Fetched, Plain, Chooses, Batches;
    ListingsAgree(catalogue, patterns, cuts, batches);
    CutsWithin(patterns, cuts, batches);
    forall e | e in catalogue && Wanted(patterns, e.name)
      ensures Unvetoed(patterns, 0, |patterns|, e.name) && AskedFor(patterns, cuts, e.name)
    {
      var i :| 0 <= i < |patterns| && Chooses(patterns[i], e.name);
      PlainUnvetoed(patterns, 0, |patterns|, e.name, i);
      var k := CutAround(cuts, |cuts| - 1, i);
      PlainUnvetoed(patterns, cuts[k], cuts[k + 1], e.name, i);
    }
  }

  lemma PlainUnvetoed(patterns: seq<Wildmat>, lo: nat, hi: nat, name: string, i: nat)
    requires lo <= i < hi <= |patterns| && Chooses(patterns[i], name)
    requires forall k :: 0 <= k < |patterns| ==> Plain(patterns[k])
    ensures Unvetoed(patterns, lo, hi, name)
  {
    hide Plain, Chooses;
    var part := patterns[lo..hi];
    assert part[i - lo] == patterns[i];
    PlainJoin(part, name);
    StretchSelects(patterns, lo, hi, name);
    JoinedIsJoin(patterns, lo, hi, name);
  }

  lemma JoinedIsJoin(patterns: seq<Wildmat>, lo: nat, hi: nat, name: string)
    requires lo < hi <= |patterns|
    ensures Chooses(Joined(patterns, lo, hi), name) <==> Selects(Split(Join(Texts(patterns[lo..hi]), ','), ','), name)
  {
  }

  /** One pattern agrees with itself joined, negated sub-patterns or not. */
  lemma OnePatternAgrees(catalogue: seq<Entry>, pattern: Wildmat)
    ensures Listing(Served(catalogue, Some(Joined([pattern], 0, 1)))) == Listing(Subscribed(catalogue, [pattern]))
  {
    hide Listing, Served, Subscribed, Chooses, Joined;
    JoinedAgrees(catalogue, [pattern]);
    forall e | e in catalogue && Wanted([pattern], e.name) ensures Unvetoed([pattern], 0, 1, e.name) {
      assert ChosenWithin([pattern], 1, e.name, 0);
    }
  }

  /** Two that do not: the second pattern vetoes a group that the first chooses. */
  lemma VetoedGroupIsMissing()
    ensures var catalogue, patterns := [Entry("ab", 1, 9)], [Wildmat("a*"), Wildmat("!ab")];
            Listing(Served(catalogue, Some(Joined(patterns, 0, 2)))) != Listing(Subscribed(catalogue, patterns))
  {
    hide Listing, Served, Subscribed, Unvetoed, Chooses;
    var catalogue, patterns := [Entry("ab", 1, 9)], [Wildmat("a*"), Wildmat("!ab")];
    JoinedAgrees(catalogue, patterns);
    NegationNeedsJoining();
    StretchSelects(patterns, 0, 2, "ab");
    JoinedIsJoin(patterns, 0, 2, "ab");
    assert patterns[0..2] == patterns;
    assert catalogue[0] in catalogue && Chooses(patterns[0], "ab");
  }

  // ----- the fetch itself -----

  /** Keeps the entries that some pattern matches; no pattern keeps everything. */
  method FilterHere(all: seq<Entry>, patterns: seq<Wildmat>) returns (kept: seq<Entry>)
    ensures kept == Subscribed(all, patterns)
  {
    kept := [];
    for k := 0 to |all|
      invariant kept == Subscribed(all[..k], patterns)
    {
      var wanted := patterns == [];
      for i := 0 to |patterns|
        invariant wanted <==> patterns == [] || exists j :: 0 <= j < i && Chooses(patterns[j], all[k].name)
      {
        var matched := Matches(patterns[i], all[k].name);
        wanted := wanted || matched;
      }
      FilteredStep(all, x => Wanted(patterns, x), k);
      if wanted {
        kept := kept + [all[k]];
      }
    }
    assert all[..|all|] == all;
  }

  lemma {:induction false} FilteredStep(s: seq<Entry>, wanted: string -> bool, k: nat)
    requires k < |s|
    ensures Filtered(s[..k + 1], wanted) == Filtered(s[..k], wanted) + if wanted(s[k].name) then [s[k]] else []
  {
    if k > 0 {
      FilteredStep(s[1..], wanted, k - 1);
      assert s[..k + 1][1..] == s[1..][..k] && s[..k][1..] == s[1..][..k - 1];
    } else {
      assert s[..1][1..] == [];
    }
  }

  lemma {:induction false} EverythingServed(catalogue: seq<Entry>)
    ensures Served(catalogue, None) == catalogue
  {
    if catalogue != [] {
      EverythingServed(catalogue[1..]);
    }
  }
}
