/** What `References` headers say, independent of any arena: names for the articles and for the
    messages nobody has, and the parent map that the link attempts build one after another. */
module References {
  import opened Options
  import opened Sequences

  const MAX_REFERENCES: nat := 64

  /** The fields of an overview record that threading looks at. */
  datatype Record = Record(messageId: Option<string>, subject: string, references: seq<string>)

  /** What a container stands for: the bearer of a message-id, or a record that bears none
      (it has no message-id, or an earlier record already claimed it). */
  datatype Name = Id(id: string) | Unclaimed(index: nat)

  type Links = map<Name, Name>

  predicate ClaimsId(records: seq<Record>, index: nat)
    requires index < |records|
  {
    && records[index].messageId.Some?
    && forall j :: 0 <= j < index ==> records[j].messageId != records[index].messageId
  }

  function NameOf(records: seq<Record>, index: nat): Name
    requires index < |records|
  {
    if ClaimsId(records, index) then Id(records[index].messageId.value) else Unclaimed(index)
  }

  /** The references that count: the nearest `MAX_REFERENCES`, oldest first. */
  function NearReferences(record: Record): (near: seq<string>)
    ensures |near| <= MAX_REFERENCES
  {
    if |record.references| > MAX_REFERENCES then record.references[|record.references| - MAX_REFERENCES..]
    else record.references
  }

  /** They are the last 64 of the header, in its order, or all of it. */
  lemma NearestKept(record: Record, k: nat)
    ensures |NearReferences(record)| == if |record.references| < 64 then |record.references| else 64
    ensures k < |NearReferences(record)| ==>
              NearReferences(record)[|NearReferences(record)| - 1 - k] == record.references[|record.references| - 1 - k]
  {
  }

  function Ids(references: seq<string>): (names: seq<Name>)
    ensures |names| == |references|
    ensures forall k :: 0 <= k < |names| ==> names[k] == Id(references[k])
  {
    seq(|references|, k requires 0 <= k < |references| => Id(references[k]))
  }

  /** One record's chain of names, oldest ancestor first, the record itself last. */
  function Chain(records: seq<Record>, index: nat): (chain: seq<Name>)
    requires index < |records|
    ensures chain != []
  {
    Ids(NearReferences(records[index])) + [NameOf(records, index)]
  }

  // ----- building the parent map -----

  /** The `k`-th ancestor of a name, `None` once there is no parent. */
  function Climb(links: Links, name: Name, k: nat): Option<Name>
    decreases k
  {
    if k == 0 then Some(name)
    else if name in links then Climb(links, links[name], k - 1)
    else None
  }

  ghost predicate Descends(links: Links, name: Name, ancestor: Name) {
    exists k: nat :: Climb(links, name, k) == Some(ancestor)
  }

  /** One attempt: the first link wins, and a link that would close a loop is refused. */
  ghost function Attempt(links: Links, child: Name, parent: Name): Links {
    if child == parent || child in links || Descends(links, parent, child) then links
    else links[child := parent]
  }

  /** The attempts of a chain's first `n` neighbouring pairs, in order. */
  ghost function LinkPairs(links: Links, chain: seq<Name>, n: nat): Links
    requires n < |chain|
  {
    if n == 0 then links
    else Attempt(LinkPairs(links, chain, n - 1), chain[n], chain[n - 1])
  }

  ghost function LinkChain(links: Links, chain: seq<Name>): Links
    requires chain != []
  {
    LinkPairs(links, chain, |chain| - 1)
  }

  /** The parent map after the first `n` records. */
  ghost function LinkedUpTo(records: seq<Record>, n: nat): Links
    requires n <= |records|
  {
    if n == 0 then map[]
    else LinkChain(LinkedUpTo(records, n - 1), Chain(records, n - 1))
  }

  ghost function LinkedRecords(records: seq<Record>): Links {
    LinkedUpTo(records, |records|)
  }

  // ----- well-behaved references -----

  /** `parent` immediately precedes `child` in some record's chain. */
  ghost predicate HeaderPuts(records: seq<Record>, child: Name, parent: Name) {
    exists i, k :: 0 <= i < |records| && HeaderPutsAt(Chain(records, i), k, child, parent)
  }

  ghost predicate HeaderPutsAt(chain: seq<Name>, k: int, child: Name, parent: Name) {
    0 < k < |chain| && chain[k] == child && chain[k - 1] == parent
  }

  ghost predicate Ranked(want: Links, rank: Name -> int) {
    forall name :: name in want ==> rank(want[name]) < rank(name)
  }

  ghost predicate Agrees(records: seq<Record>, want: Links) {
    forall i, k :: 0 <= i < |records| && 0 < k < |Chain(records, i)| ==>
      Chain(records, i)[k] in want && want[Chain(records, i)[k]] == Chain(records, i)[k - 1]
  }

  lemma {:induction false} ClimbLowers(links: Links, want: Links, rank: Name -> int, name: Name, k: nat)
    requires Ranked(want, rank)
    requires forall n :: n in links ==> n in want && links[n] == want[n]
    ensures Climb(links, name, k).Some? && k > 0 ==> rank(Climb(links, name, k).value) < rank(name)
    decreases k
  {
    if k > 0 && name in links {
      ClimbLowers(links, want, rank, links[name], k - 1);
    }
  }

  /** The links of the first `n` records, when those references are part of one acyclic parent
      map: exactly the pairs they name. */
  lemma {:induction false} AgreeingPairs(links: Links, chain: seq<Name>, n: nat, want: Links, rank: Name -> int)
    requires n < |chain| && Ranked(want, rank)
    requires forall k :: 0 < k < |chain| ==> chain[k] in want && want[chain[k]] == chain[k - 1]
    requires forall name :: name in links ==> name in want && links[name] == want[name]
    ensures forall name :: name in LinkPairs(links, chain, n) ==>
              name in want && LinkPairs(links, chain, n)[name] == want[name]
    ensures n > 0 ==> LinkPairs(links, chain, n).Keys == LinkPairs(links, chain, n - 1).Keys + {chain[n]}
  {
    hide Descends, Ranked;
    if n > 0 {
      AgreeingPairs(links, chain, n - 1, want, rank);
      NoLoop(LinkPairs(links, chain, n - 1), want, rank, chain[n], chain[n - 1]);
    }
  }

  lemma {:induction false} PairsReached(links: Links, chain: seq<Name>, n: nat, want: Links, rank: Name -> int, name: Name)
    requires n < |chain| && Ranked(want, rank)
    requires forall k :: 0 < k < |chain| ==> chain[k] in want && want[chain[k]] == chain[k - 1]
    requires forall name :: name in links ==> name in want && links[name] == want[name]
    ensures name in LinkPairs(links, chain, n) <==> name in links || exists k :: 0 < k <= n && chain[k] == name
  {
    hide Attempt, Ranked;
    if n > 0 {
      PairsReached(links, chain, n - 1, want, rank, name);
      AgreeingPairs(links, chain, n, want, rank);
    }
  }

  /** Edges of a ranked parent map never close a loop. */
  lemma NoLoop(before: Links, want: Links, rank: Name -> int, child: Name, parent: Name)
    requires Ranked(want, rank) && child in want && want[child] == parent
    requires forall name :: name in before ==> name in want && before[name] == want[name]
    ensures child != parent && !Descends(before, parent, child)
  {
    assert rank(want[child]) < rank(child);
    if Descends(before, parent, child) {
      var k: nat :| Climb(before, parent, k) == Some(child);
      ClimbLowers(before, want, rank, parent, k);
      assert false;
    }
  }

  ghost predicate BelowAnother(records: seq<Record>, n: nat, name: Name)
    requires n <= |records|
  {
    exists i, k :: 0 <= i < n && 0 < k < |Chain(records, i)| && Chain(records, i)[k] == name
  }

  ghost predicate BelowIn(chain: seq<Name>, name: Name) {
    exists k :: 0 < k < |chain| && chain[k] == name
  }

  lemma BelowAnotherStep(records: seq<Record>, n: nat, name: Name)
    requires 0 < n <= |records|
    ensures BelowAnother(records, n, name) <==>
            BelowAnother(records, n - 1, name) || BelowIn(Chain(records, n - 1), name)
  {
    if BelowIn(Chain(records, n - 1), name) {
      var k :| 0 < k < |Chain(records, n - 1)| && Chain(records, n - 1)[k] == name;
      assert BelowAnother(records, n, name);
    }
  }

  lemma AgreeingChain(before: Links, records: seq<Record>, index: nat, want: Links, rank: Name -> int)
    requires index < |records| && Ranked(want, rank) && Agrees(records, want)
    requires forall name :: name in before ==> name in want && before[name] == want[name]
    ensures var after := LinkChain(before, Chain(records, index));
            && (forall name :: name in after ==> name in want && after[name] == want[name])
            && (forall name :: name in after <==> name in before || BelowIn(Chain(records, index), name))
  {
    hide Ranked, LinkPairs;
    var chain := Chain(records, index);
    AgreeingPairs(before, chain, |chain| - 1, want, rank);
    forall name ensures name in LinkChain(before, chain) <==> name in before || BelowIn(chain, name) {
      PairsReached(before, chain, |chain| - 1, want, rank, name);
    }
  }

  lemma {:induction false} AgreeingRecords(records: seq<Record>, n: nat, want: Links, rank: Name -> int)
    requires n <= |records| && Ranked(want, rank) && Agrees(records, want)
    ensures forall name :: name in LinkedUpTo(records, n) ==>
              name in want && LinkedUpTo(records, n)[name] == want[name]
    ensures forall name :: name in LinkedUpTo(records, n) <==> BelowAnother(records, n, name)
  {
    hide LinkChain, Ranked, BelowIn, Chain;
    if n > 0 {
      hide BelowAnother;
      AgreeingRecords(records, n - 1, want, rank);
      AgreeingChain(LinkedUpTo(records, n - 1), records, n - 1, want, rank);
      forall name ensures name in LinkedUpTo(records, n) <==> BelowAnother(records, n, name) {
        BelowAnotherStep(records, n, name);
      }
    }
  }

  /** References that all come from one acyclic parent map are reconstructed exactly: a name's
      parent is the one its chains put before it, and a name no chain puts below another has
      none. */
  lemma ReferencesReconstructed(records: seq<Record>, want: Links, rank: Name -> int)
    requires Ranked(want, rank) && Agrees(records, want)
    ensures forall child, parent ::
              child in LinkedRecords(records) && LinkedRecords(records)[child] == parent
              <==> HeaderPuts(records, child, parent)
  {
    AgreeingRecords(records, |records|, want, rank);
    var links := LinkedRecords(records);
    forall child, parent
      ensures child in links && links[child] == parent <==> HeaderPuts(records, child, parent)
    {
      if child in links {
        var i, k :| 0 <= i < |records| && 0 < k < |Chain(records, i)| && Chain(records, i)[k] == child;
        assert HeaderPutsAt(Chain(records, i), k, child, want[child]);
      }
      if HeaderPuts(records, child, parent) {
        var i, k :| 0 <= i < |records| && HeaderPutsAt(Chain(records, i), k, child, parent);
        assert Chain(records, i)[k] in want;
      }
    }
  }

  ghost predicate UniqueIds(records: seq<Record>) {
    forall i :: 0 <= i < |records| ==> ClaimsId(records, i)
  }

  lemma ShuffledIds(records: seq<Record>, shuffled: seq<Record>)
    requires multiset(records) == multiset(shuffled) && UniqueIds(records)
    ensures UniqueIds(shuffled)
  {
    forall i, j | 0 <= i < j < |records| ensures records[i] != records[j] {
      assert ClaimsId(records, j);
    }
    PermutationMembers(records, shuffled);
    forall i | 0 <= i < |shuffled| ensures ClaimsId(shuffled, i) {
      assert shuffled[i] in records;
      var a :| 0 <= a < |records| && records[a] == shuffled[i];
      assert ClaimsId(records, a);
      forall j | 0 <= j < i ensures shuffled[j].messageId != shuffled[i].messageId {
        assert shuffled[j] in records;
        var b :| 0 <= b < |records| && records[b] == shuffled[j];
        assert ClaimsId(records, b);
      }
    }
  }

  /** With message-ids all present and distinct, record order does not matter: any two orders
      of the same records build the same parent map. */
  lemma OrderIndependent(records: seq<Record>, shuffled: seq<Record>, want: Links, rank: Name -> int)
    requires multiset(records) == multiset(shuffled)
    requires UniqueIds(records)
    requires Ranked(want, rank) && Agrees(records, want)
    ensures LinkedRecords(shuffled) == LinkedRecords(records)
  {
    PermutationMembers(records, shuffled);
    ShuffledIds(records, shuffled);
    forall i, k | 0 <= i < |shuffled| && 0 < k < |Chain(shuffled, i)|
      ensures Chain(shuffled, i)[k] in want && want[Chain(shuffled, i)[k]] == Chain(shuffled, i)[k - 1]
    {
      SameChain(shuffled, records, i);
    }
    ReferencesReconstructed(records, want, rank);
    ReferencesReconstructed(shuffled, want, rank);
    var a, b := LinkedRecords(records), LinkedRecords(shuffled);
    forall child, parent ensures HeaderPuts(records, child, parent) <==> HeaderPuts(shuffled, child, parent) {
      if HeaderPuts(records, child, parent) {
        var i, k :| 0 <= i < |records| && HeaderPutsAt(Chain(records, i), k, child, parent);
        SameChain(records, shuffled, i);
      }
      if HeaderPuts(shuffled, child, parent) {
        var i, k :| 0 <= i < |shuffled| && HeaderPutsAt(Chain(shuffled, i), k, child, parent);
        SameChain(shuffled, records, i);
      }
    }
    forall name ensures name in a <==> name in b {
      if name in a { assert HeaderPuts(shuffled, name, a[name]); }
      if name in b { assert HeaderPuts(records, name, b[name]); }
    }
    forall name | name in a ensures a[name] == b[name] {
      assert HeaderPuts(shuffled, name, a[name]);
    }
  }

  lemma SameChain(records: seq<Record>, others: seq<Record>, i: nat)
    requires i < |records| && UniqueIds(records) && UniqueIds(others)
    requires records[i] in others
    ensures exists j :: 0 <= j < |others| && Chain(others, j) == Chain(records, i)
  {
    var j :| 0 <= j < |others| && others[j] == records[i];
    assert ClaimsId(others, j) && ClaimsId(records, i);
    assert Chain(others, j) == Chain(records, i);
  }

  // ----- whose link wins -----

  lemma {:induction false} ClimbGrows(links: Links, child: Name, parent: Name, name: Name, k: nat)
    requires child !in links
    ensures Climb(links, name, k).Some? ==>
              Climb(links[child := parent], name, k) == Climb(links, name, k)
    decreases k
  {
    if k > 0 && name in links {
      ClimbGrows(links, child, parent, links[name], k - 1);
    }
  }

  /** `child` hangs under `parent`. */
  ghost predicate Settled(links: Links, child: Name, parent: Name) {
    child in links && links[child] == parent
  }

  /** `child` will never hang under `parent`: it has another parent, or the link would be a loop. */
  ghost predicate Blocked(links: Links, child: Name, parent: Name) {
    if child in links then links[child] != parent
    else child == parent || Descends(links, parent, child)
  }

  /** No attempt undoes a link, and none unblocks one. */
  lemma AttemptKeeps(links: Links, c: Name, p: Name, child: Name, parent: Name)
    ensures Settled(links, child, parent) ==> Settled(Attempt(links, c, p), child, parent)
    ensures Blocked(links, child, parent) ==> Blocked(Attempt(links, c, p), child, parent)
  {
    if Blocked(links, child, parent) && c !in links && child !in links && child != parent {
      var k: nat :| Climb(links, parent, k) == Some(child);
      ClimbGrows(links, c, p, parent, k);
      assert Climb(links[c := p], parent, k) == Some(child);
    }
  }

  lemma {:induction false} PairsKeep(links: Links, chain: seq<Name>, n: nat, m: nat, child: Name, parent: Name)
    requires n <= m < |chain|
    ensures Settled(LinkPairs(links, chain, n), child, parent) ==> Settled(LinkPairs(links, chain, m), child, parent)
    ensures Blocked(LinkPairs(links, chain, n), child, parent) ==> Blocked(LinkPairs(links, chain, m), child, parent)
  {
    if n < m {
      PairsKeep(links, chain, n, m - 1, child, parent);
      AttemptKeeps(LinkPairs(links, chain, m - 1), chain[m], chain[m - 1], child, parent);
    }
  }

  lemma ChainKeeps(links: Links, chain: seq<Name>, child: Name, parent: Name)
    requires chain != []
    ensures Settled(links, child, parent) ==> Settled(LinkChain(links, chain), child, parent)
    ensures Blocked(links, child, parent) ==> Blocked(LinkChain(links, chain), child, parent)
  {
    hide Attempt, Settled, Blocked;
    PairsKeep(links, chain, 0, |chain| - 1, child, parent);
  }

  lemma {:induction false} RecordsKeep(records: seq<Record>, n: nat, m: nat, child: Name, parent: Name)
    requires n <= m <= |records|
    ensures Settled(LinkedUpTo(records, n), child, parent) ==> Settled(LinkedUpTo(records, m), child, parent)
    ensures Blocked(LinkedUpTo(records, n), child, parent) ==> Blocked(LinkedUpTo(records, m), child, parent)
  {
    hide LinkChain, Chain, Settled, Blocked;
    if n < m {
      RecordsKeep(records, n, m - 1, child, parent);
      ChainKeeps(LinkedUpTo(records, m - 1), Chain(records, m - 1), child, parent);
    }
  }

  /** Whether an attempt leaves `child` under `parent`. */
  ghost predicate Wins(links: Links, child: Name, parent: Name) {
    if child in links then links[child] == parent
    else child != parent && !Descends(links, parent, child)
  }

  lemma AttemptDecides(links: Links, child: Name, parent: Name)
    ensures if Wins(links, child, parent) then Settled(Attempt(links, child, parent), child, parent)
            else Blocked(Attempt(links, child, parent), child, parent)
  {
  }

  /** An article ends up under the last message its own header names exactly when, at the moment
      that link is tried, it has that parent already, or has none and the link closes no loop. */
  lemma OwnHeaderWins(records: seq<Record>, index: nat)
    requires index < |records| && records[index].references != []
    ensures |Chain(records, index)| >= 2
    ensures var chain := Chain(records, index);
            var before := LinkPairs(LinkedUpTo(records, index), chain, |chain| - 2);
            var child, parent := chain[|chain| - 1], chain[|chain| - 2];
            Settled(LinkedRecords(records), child, parent) <==> Wins(before, child, parent)
  {
    assert |Chain(records, index)| >= 2;
    OwnHeader(records, index, Chain(records, index));
  }

  lemma OwnHeader(records: seq<Record>, index: nat, chain: seq<Name>)
    requires index < |records| && chain == Chain(records, index) && |chain| >= 2
    ensures var before := LinkPairs(LinkedUpTo(records, index), chain, |chain| - 2);
            var child, parent := chain[|chain| - 1], chain[|chain| - 2];
            Settled(LinkedRecords(records), child, parent) <==> Wins(before, child, parent)
  {
    hide Chain, Attempt, Wins, Descends;
    var before := LinkPairs(LinkedUpTo(records, index), chain, |chain| - 2);
    var child, parent := chain[|chain| - 1], chain[|chain| - 2];
    AttemptDecides(before, child, parent);
    assert LinkPairs(LinkedUpTo(records, index), chain, |chain| - 1) == Attempt(before, child, parent);
    assert LinkedUpTo(records, index + 1) == Attempt(before, child, parent);
    RecordsKeep(records, index + 1, |records|, child, parent);
  }

  /** The link that wins can come from somebody else's header: the first record's references
      already put `b` under `a`, so the second record, `b` itself, does not get under `c`. */
  lemma ForeignHeaderCanWin()
    ensures var records := [Record(Some("d"), "", ["a", "b"]), Record(Some("b"), "", ["c"])];
            Id("b") in LinkedRecords(records) && LinkedRecords(records)[Id("b")] == Id("a")
  {
    var records := [Record(Some("d"), "", ["a", "b"]), Record(Some("b"), "", ["c"])];
    var chain := Chain(records, 0);
    assert chain[0] == Id("a") && chain[1] == Id("b");
    forall k: nat ensures Climb(map[], Id("a"), k) != Some(Id("b")) {
      assert Id("a") != Id("b") by { assert "a"[0] != "b"[0]; }
    }
    assert LinkPairs(map[], chain, 1) == Attempt(LinkPairs(map[], chain, 0), Id("b"), Id("a"));
    assert Settled(LinkPairs(map[], chain, 1), Id("b"), Id("a"));
    PairsKeep(map[], chain, 1, 2, Id("b"), Id("a"));
    assert LinkedUpTo(records, 0) == map[];
    RecordsKeep(records, 1, 2, Id("b"), Id("a"));
  }
}
