/** Which root adopts which when roots are grouped by subject, read off the roots' tags alone: for
    each root, oldest first, its normalised subject and whether that subject announces a reply.

    The oldest root of a subject decides. If it is not a reply it holds every other root of the
    subject. If it is, it holds the replies that follow until a root that is not a reply takes it
    over, which holds until the next such root takes over in turn. */
module Subjects {
  import opened Options

  type Tags = seq<(string, bool)>

  /** The oldest of the first `n` roots with this subject. */
  function Eldest(tags: Tags, key: string, n: nat): (eldest: Option<nat>)
    requires n <= |tags|
    ensures eldest.Some? ==>
              && eldest.value < n && tags[eldest.value].0 == key
              && forall i :: 0 <= i < eldest.value ==> tags[i].0 != key
    ensures eldest.None? ==> forall i :: 0 <= i < n ==> tags[i].0 != key
  {
    if n == 0 then None
    else if Eldest(tags, key, n - 1).Some? then Eldest(tags, key, n - 1)
    else if tags[n - 1].0 == key then Some(n - 1)
    else None
  }

  /** The youngest of the first `n` roots with this subject that is not a reply. */
  function LastOpener(tags: Tags, key: string, n: nat): (last: Option<nat>)
    requires n <= |tags|
    ensures last.Some? ==>
              && last.value < n && tags[last.value] == (key, false)
              && forall i :: last.value < i < n ==> tags[i] != (key, false)
    ensures last.None? ==> forall i :: 0 <= i < n ==> tags[i] != (key, false)
  {
    if n == 0 then None
    else if tags[n - 1] == (key, false) then Some(n - 1)
    else LastOpener(tags, key, n - 1)
  }

  /** The oldest root after `j`, among the first `n`, with this subject that is not a reply. */
  function NextOpener(tags: Tags, key: string, j: nat, n: nat): (next: Option<nat>)
    requires n <= |tags|
    ensures next.Some? ==>
              && j < next.value < n && tags[next.value] == (key, false)
              && forall i :: j < i < next.value ==> tags[i] != (key, false)
    ensures next.None? ==> forall i :: j < i < n ==> tags[i] != (key, false)
  {
    if n <= j + 1 then None
    else if NextOpener(tags, key, j, n - 1).Some? then NextOpener(tags, key, j, n - 1)
    else if tags[n - 1] == (key, false) then Some(n - 1)
    else None
  }

  /** The root that holds a subject once the first `n` roots have been visited. */
  function Holder(tags: Tags, key: string, n: nat): (holder: Option<nat>)
    requires n <= |tags|
    ensures holder.Some? <==> Eldest(tags, key, n).Some?
    ensures holder.Some? ==> holder.value < n && tags[holder.value].0 == key
  {
    match Eldest(tags, key, n)
    case None => None
    case Some(e) =>
      if tags[e].1 && LastOpener(tags, key, n).Some? then LastOpener(tags, key, n) else Some(e)
  }

  /** The root that root `j` hangs under once the first `n` roots have been visited. */
  function Adopter(tags: Tags, j: nat, n: nat): (adopter: Option<nat>)
    requires j < n <= |tags|
    ensures adopter.Some? ==>
              adopter.value < n && adopter.value != j && tags[adopter.value].0 == tags[j].0 != ""
  {
    var key := tags[j].0;
    if key == "" then None
    else
      var e := Eldest(tags, key, n).value;
      if !tags[e].1 then
        if j == e then None else Some(e)
      else if j != e && tags[j].1 then
        if LastOpener(tags, key, j).Some? then LastOpener(tags, key, j) else Some(e)
      else NextOpener(tags, key, j, n)
  }

  /** Whether visiting root `n` makes it take over its subject's holder. */
  predicate TakesOver(tags: Tags, n: nat)
    requires n < |tags| && Eldest(tags, tags[n].0, n).Some?
  {
    tags[Eldest(tags, tags[n].0, n).value].1 && !tags[n].1
  }

  /** What visiting root `n` does: nothing, or the link of a child root under a parent root. */
  function Visit(tags: Tags, n: nat): (link: Option<(nat, nat)>)
    requires n < |tags|
    ensures link.Some? ==> link.value.0 <= n && link.value.1 <= n && link.value.0 != link.value.1
  {
    var key := tags[n].0;
    if key == "" || Holder(tags, key, n).None? then None
    else if TakesOver(tags, n) then Some((Holder(tags, key, n).value, n))
    else Some((n, Holder(tags, key, n).value))
  }

  /** Visiting one more root changes the holder of its own subject only. */
  lemma HolderStep(tags: Tags, n: nat, key: string)
    requires n < |tags|
    ensures Holder(tags, key, n + 1) ==
            if tags[n].0 != key then Holder(tags, key, n)
            else if Holder(tags, key, n).None? || TakesOver(tags, n) then Some(n)
            else Holder(tags, key, n)
  {
  }

  /** Visiting one more root gives a parent to it, or to the holder it takes over, and to no other. */
  lemma AdopterStep(tags: Tags, j: nat, n: nat)
    requires j <= n < |tags|
    ensures Adopter(tags, j, n + 1) ==
            if Visit(tags, n).Some? && j == Visit(tags, n).value.0 then Some(Visit(tags, n).value.1)
            else if j == n then None
            else Adopter(tags, j, n)
  {
  }

  /** A subject's holder is the one root of the subject that nobody adopts. */
  lemma HolderIsFree(tags: Tags, j: nat, n: nat)
    requires j < n <= |tags|
    ensures Adopter(tags, j, n).None? <==> tags[j].0 == "" || Holder(tags, tags[j].0, n) == Some(j)
  {
  }

  // ----- the order of the roots that remain -----

  /** The position whose article is the oldest in the tree root `j` ends up in. */
  function Lead(tags: Tags, j: nat): (lead: nat)
    requires j < |tags|
    ensures lead <= j
  {
    if tags[j].0 == "" then j else Eldest(tags, tags[j].0, |tags|).value
  }

  ghost predicate Free(tags: Tags, j: nat) {
    j < |tags| && Adopter(tags, j, |tags|).None?
  }

  /** The remaining roots are still oldest-first. */
  ghost predicate OldestFirst(tags: Tags) {
    forall j, k :: Free(tags, j) && Free(tags, k) && j < k ==> Lead(tags, j) < Lead(tags, k)
  }

  /** A subject starts at `first` with a reply, and the last of its roots that is not one is `opener`. */
  predicate OpenedLate(tags: Tags, first: nat, opener: nat)
    requires first < |tags|
  {
    var (key, isReply) := tags[first];
    key != "" && isReply && Eldest(tags, key, |tags|) == Some(first) && LastOpener(tags, key, |tags|) == Some(opener)
  }

  /** A root without a subject or with a new one, which nothing takes over from `limit` on. */
  predicate StartsBefore(tags: Tags, first: nat, limit: nat)
    requires first < |tags|
  {
    var (key, isReply) := tags[first];
    || key == ""
    || (Eldest(tags, key, |tags|) == Some(first)
        && (isReply && LastOpener(tags, key, |tags|).Some? ==> LastOpener(tags, key, |tags|).value < limit))
  }

  /** A reply starts a subject, something else starts after it and is settled, and only then comes the
      last root that is not a reply to take the subject over. */
  predicate Leapfrogged(tags: Tags, reply: nat, other: nat, opener: nat) {
    reply < other < opener < |tags| && OpenedLate(tags, reply, opener) && StartsBefore(tags, other, opener)
  }

  lemma LeadsDiffer(tags: Tags, j: nat, k: nat)
    requires Free(tags, j) && Free(tags, k) && j != k
    ensures Lead(tags, j) != Lead(tags, k)
  {
    HolderIsFree(tags, j, |tags|);
    HolderIsFree(tags, k, |tags|);
  }

  /** A leapfrog puts the tree that starts with `reply` behind the one that starts with `other`. */
  lemma LeapfrogInverts(tags: Tags, reply: nat, other: nat, opener: nat)
    requires Leapfrogged(tags, reply, other, opener)
    ensures !OldestFirst(tags)
  {
    var key := tags[other].0;
    var j := if key == "" then other else Holder(tags, key, |tags|).value;
    HolderIsFree(tags, j, |tags|);
    HolderIsFree(tags, opener, |tags|);
    assert Free(tags, j) && Free(tags, opener) && j < opener;
    assert Lead(tags, j) == other && Lead(tags, opener) == reply;
  }

  /** Grouping keeps the remaining roots oldest-first exactly when there is no leapfrog. */
  lemma OrderKeptUnlessLeapfrogged(tags: Tags)
    ensures OldestFirst(tags) <==> !exists reply, other, opener :: Leapfrogged(tags, reply, other, opener)
  {
    if reply, other, opener :| Leapfrogged(tags, reply, other, opener) {
      LeapfrogInverts(tags, reply, other, opener);
    }
    if !OldestFirst(tags) {
      var j, k :| Free(tags, j) && Free(tags, k) && j < k && Lead(tags, j) >= Lead(tags, k);
      LeadsDiffer(tags, j, k);
      HolderIsFree(tags, j, |tags|);
      HolderIsFree(tags, k, |tags|);
      assert Leapfrogged(tags, Lead(tags, k), Lead(tags, j), k);
    }
  }

  /** It does happen: a reply, an unrelated root, then the article the reply answers. */
  lemma RootOrderCanBreak()
    ensures !OldestFirst([("x", true), ("y", false), ("x", false)])
  {
    var tags: Tags := [("x", true), ("y", false), ("x", false)];
    assert tags[0].0 == "x" && tags[1].0 == "y" && tags[2].0 == "x";
    assert Eldest(tags, "x", 1) == Some(0);
    assert Eldest(tags, "x", 3) == Some(0);
    assert Free(tags, 1) && Lead(tags, 1) == 1;
    assert Free(tags, 2) && Lead(tags, 2) == 0;
  }

  // ----- which of two openers holds -----

  /** Root `a`, not a reply, hangs under the later root `b` that is not one either. */
  predicate TakenOver(tags: Tags, a: nat, b: nat) {
    a < b < |tags| && !tags[a].1 && !tags[b].1 && Adopter(tags, a, |tags|) == Some(b)
  }

  /** A reply starts the subject of `a`, and `b` is a later root of that subject that is not a reply,
      as `a` is not. */
  predicate OpenedAgain(tags: Tags, a: nat, b: nat) {
    a < b < |tags| && tags[a].0 != "" && !tags[a].1 && tags[b] == tags[a]
    && tags[Eldest(tags, tags[a].0, |tags|).value].1
  }

  /** A root that is not a reply is taken over by a later one exactly when a reply starts its subject and
      there is a later one. */
  lemma TakenOverIff(tags: Tags, a: nat)
    requires a < |tags| && !tags[a].1
    ensures (exists b :: TakenOver(tags, a, b)) <==> exists b :: OpenedAgain(tags, a, b)
  {
    if b :| TakenOver(tags, a, b) {
      assert OpenedAgain(tags, a, b);
    }
    if b :| OpenedAgain(tags, a, b) {
      assert TakenOver(tags, a, NextOpener(tags, tags[a].0, a, |tags|).value);
    }
  }

  /** The older of two roots that are not replies always holds exactly when no subject that a reply starts
      has two of them. */
  lemma OlderHoldsIff(tags: Tags)
    ensures (exists a, b :: TakenOver(tags, a, b)) <==> exists a, b :: OpenedAgain(tags, a, b)
  {
    hide Adopter;
    if a, b :| TakenOver(tags, a, b) {
      TakenOverIff(tags, a);
    }
    if a, b :| OpenedAgain(tags, a, b) {
      TakenOverIff(tags, a);
    }
  }

  /** After a takeover the holder still counts as a reply, so a third root takes it over too
      instead of joining it. */
  lemma TakeoversStack()
    ensures var tags: Tags := [("x", true), ("x", false), ("x", false)];
            Adopter(tags, 0, 3) == Some(1) && Adopter(tags, 1, 3) == Some(2) && Adopter(tags, 2, 3) == None
  {
    var tags: Tags := [("x", true), ("x", false), ("x", false)];
    assert tags[0].0 == "x";
    assert Eldest(tags, "x", 3) == Some(0);
  }
}
