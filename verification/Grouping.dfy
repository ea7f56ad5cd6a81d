/** Grouping roots by subject: the arena method's loop, proved to give every root exactly the
    parent that `Subjects.Adopter` reads off the subjects. */
module Grouping {
  import opened Options
  import opened Sequences
  import opened Forests
  import opened References
  import opened Arenas
  import opened Subjects

  /** The container at the top of a path. */
  ghost function RootOf(cs: seq<Container>, x: nat): (root: nat)
    requires Acyclic(cs) && x < |cs|
    ensures root < |cs|
  {
    Path(cs, x)[0]
  }

  lemma {:induction false} RootIsParentless(cs: seq<Container>, x: nat)
    requires Acyclic(cs) && x < |cs|
    ensures cs[RootOf(cs, x)].parent.None?
    ensures cs[x].parent.None? ==> RootOf(cs, x) == x
    decreases Depths(cs)[x]
  {
    if cs[x].parent.Some? {
      RootIsParentless(cs, cs[x].parent.value);
      assert Path(cs, x)[0] == Path(cs, cs[x].parent.value)[0];
    }
  }

  /** Linking one root under another moves its whole tree there and nothing else. */
  lemma LinkRoots(cs: seq<Container>, child: nat, parent: nat, x: nat)
    requires Forest(cs) && child < |cs| && parent < |cs| && child != parent && x < |cs|
    requires cs[child].parent.None? && cs[parent].parent.None?
    ensures AfterAttempt(cs, child, parent) == Linked(cs, child, parent)
    ensures Forest(Linked(cs, child, parent))
    ensures RootOf(Linked(cs, child, parent), x) == if RootOf(cs, x) == child then parent else RootOf(cs, x)
  {
    assert Path(cs, parent) == [parent];
    LinkKeepsForest(cs, child, parent);
    LinkPaths(cs, child, parent, x);
    if child in Path(cs, x) {
      OnPath(cs, child, x);
    }
  }

  /** A root's oldest article is the lowest one in any container whose path starts there. */
  ghost predicate LowestUnder(cs: seq<Container>, root: nat, a: nat)
    requires Acyclic(cs)
  {
    && (exists x :: 0 <= x < |cs| && RootOf(cs, x) == root && cs[x].article == Some(a))
    && (forall x :: 0 <= x < |cs| && RootOf(cs, x) == root && cs[x].article.Some? ==> a <= cs[x].article.value)
  }

  lemma OldestOfRoot(cs: seq<Container>, root: nat, a: nat)
    requires Forest(cs) && root < |cs| && cs[root].parent.None?
    ensures Oldest(cs, root) == Some(a) <==> LowestUnder(cs, root, a)
  {
    forall x | 0 <= x < |cs| ensures Holds(cs, root, x) <==> RootOf(cs, x) == root {
      RootOfPath(cs, root, x);
    }
    if LowestUnder(cs, root, a) {
      var x :| 0 <= x < |cs| && RootOf(cs, x) == root && cs[x].article == Some(a);
      assert IsOldest(cs, root, |cs|, Some(a));
      OldestUnique(cs, root, Some(a), Oldest(cs, root));
    }
    if Oldest(cs, root) == Some(a) {
      var x :| 0 <= x < |cs| && Holds(cs, root, x) && cs[x].article == Some(a);
    }
  }

  // ----- the state after visiting some roots -----

  /** Where the tree of root `j` has got to after `n` visits. */
  function Top(tags: Tags, j: nat, n: nat): (top: nat)
    requires j < |tags| && n <= |tags|
    ensures j < n ==> top < n
    ensures j >= n ==> top == j
  {
    if j >= n || tags[j].0 == "" then j else Holder(tags, tags[j].0, n).value
  }

  /** `ds` is `cs` with the first `n` roots grouped. */
  ghost predicate Grouped(cs: seq<Container>, roots: seq<nat>, tags: Tags, n: nat, ds: seq<Container>)
    requires Acyclic(cs) && n <= |tags| == |roots|
  {
    && |ds| == |cs| && Forest(ds)
    && GroupedParents(cs, roots, tags, n, ds)
    && GroupedTrees(cs, roots, tags, n, ds)
  }

  /** Each visited root has the parent its tags give it, and nothing else changed. */
  ghost predicate GroupedParents(cs: seq<Container>, roots: seq<nat>, tags: Tags, n: nat, ds: seq<Container>)
    requires n <= |tags| == |roots|
  {
    && |ds| == |cs|
    && (forall x :: 0 <= x < |cs| ==> ds[x].article == cs[x].article)
    && (forall x :: 0 <= x < |cs| && x !in roots ==> ds[x].parent == cs[x].parent)
    && (forall j :: 0 <= j < |roots| ==> roots[j] < |cs| && ds[roots[j]].parent == AdopterOf(roots, tags, j, n))
  }

  /** Each tree has got to where its root has. */
  ghost predicate GroupedTrees(cs: seq<Container>, roots: seq<nat>, tags: Tags, n: nat, ds: seq<Container>)
    requires Acyclic(cs) && Acyclic(ds) && |ds| == |cs| && n <= |tags| == |roots|
  {
    && (forall x, j :: 0 <= x < |cs| && 0 <= j < |roots| && RootOf(cs, x) == roots[j] ==>
          RootOf(ds, x) == roots[Top(tags, j, n)])
    && (forall x :: 0 <= x < |cs| && RootOf(cs, x) !in roots ==> RootOf(ds, x) == RootOf(cs, x))
  }

  ghost function AdopterOf(roots: seq<nat>, tags: Tags, j: nat, n: nat): Option<nat>
    requires j < |roots| == |tags| && n <= |tags|
  {
    if j < n && Adopter(tags, j, n).Some? then Some(roots[Adopter(tags, j, n).value]) else None
  }

  /** The tag of each root: the normalised subject of its oldest article. */
  ghost function TagsOf(cs: seq<Container>, roots: seq<nat>, records: seq<Record>,
                        normalise: string -> (string, bool)): (tags: Tags)
    requires Forest(cs) && RootList(cs, roots)
    requires forall k :: 0 <= k < |roots| ==> Oldest(cs, roots[k]).value < |records|
    ensures |tags| == |roots|
    ensures forall k :: 0 <= k < |tags| ==> tags[k] == normalise(records[Oldest(cs, roots[k]).value].subject)
  {
    seq(|roots|, k requires 0 <= k < |roots| => normalise(records[Oldest(cs, roots[k]).value].subject))
  }

  /** A root earlier in the list holds an older article than anything under a later one. */
  lemma EarlierIsOlder(cs: seq<Container>, roots: seq<nat>, lead: nat, i: nat, y: nat)
    requires Forest(cs) && RootList(cs, roots) && lead <= i < |roots|
    requires y < |cs| && RootOf(cs, y) == roots[i] && cs[y].article.Some?
    ensures Oldest(cs, roots[lead]).Some? && Oldest(cs, roots[lead]).value <= cs[y].article.value
  {
    hide Acyclic, ChildrenPointBack, ParentsListChildren, Path, Oldest;
    assert IsRoot(cs, roots[i]) && IsRoot(cs, roots[lead]);
    OldestOfRoot(cs, roots[i], Oldest(cs, roots[i]).value);
    assert lead < i ==> Oldest(cs, roots[lead]).value < Oldest(cs, roots[i]).value;
  }

  lemma LeadIsLowest(cs: seq<Container>, roots: seq<nat>, tags: Tags, n: nat, ds: seq<Container>, j: nat, y: nat)
    requires Forest(cs) && RootList(cs, roots) && n <= |tags| == |roots|
    requires Grouped(cs, roots, tags, n, ds)
    requires j < |roots| && ds[roots[j]].parent.None?
    requires y < |ds| && RootOf(ds, y) == roots[j] && ds[y].article.Some?
    ensures Oldest(cs, roots[LeadAt(tags, j, n)]).Some?
    ensures Oldest(cs, roots[LeadAt(tags, j, n)]).value <= ds[y].article.value
  {
    hide Acyclic, ChildrenPointBack, ParentsListChildren, Path, Oldest, Adopter, Holder, GroupedTrees, AdopterOf, Eldest,
         Top, LeadAt, RootList, RootOf;
    GroupedMember(cs, roots, tags, n, ds, j, y);
    var i :| 0 <= i < |roots| && RootOf(cs, y) == roots[i] && Top(tags, i, n) == j;
    LeadBefore(tags, i, j, n);
    EarlierIsOlder(cs, roots, LeadAt(tags, j, n), i, y);
  }

  /** Once `n` roots are grouped, the holder of a subject holds as its oldest article the one of
      the subject's eldest root. */
  lemma GroupedOldest(cs: seq<Container>, roots: seq<nat>, tags: Tags, n: nat, ds: seq<Container>, j: nat)
    requires Forest(cs) && RootList(cs, roots) && n <= |tags| == |roots|
    requires Grouped(cs, roots, tags, n, ds)
    requires j < |roots| && ds[roots[j]].parent.None?
    ensures Oldest(ds, roots[j]) == Oldest(cs, roots[LeadAt(tags, j, n)])
  {
    hide Acyclic, ChildrenPointBack, ParentsListChildren, Path, Oldest, Adopter, Holder;
    var lead := LeadAt(tags, j, n);
    LeadLeads(tags, roots, j, n);
    var a := Oldest(cs, roots[lead]).value;
    assert IsRoot(cs, roots[lead]);
    OldestOfRoot(cs, roots[lead], a);
    var x :| 0 <= x < |cs| && RootOf(cs, x) == roots[lead] && cs[x].article == Some(a);
    assert RootOf(ds, x) == roots[j];
    forall y | 0 <= y < |ds| && RootOf(ds, y) == roots[j] && ds[y].article.Some?
      ensures a <= ds[y].article.value
    {
      LeadIsLowest(cs, roots, tags, n, ds, j, y);
    }
    assert LowestUnder(ds, roots[j], a);
    OldestOfRoot(ds, roots[j], a);
  }

  /** The position whose article leads the tree of the parentless root `j`, after `n` visits. */
  function LeadAt(tags: Tags, j: nat, n: nat): (lead: nat)
    requires j < |tags| && n <= |tags|
    ensures lead <= j
  {
    if j < n && tags[j].0 != "" then Eldest(tags, tags[j].0, n).value else j
  }

  lemma LeadLeads(tags: Tags, roots: seq<nat>, j: nat, n: nat)
    requires j < |tags| == |roots| && n <= |tags| && AdopterOf(roots, tags, j, n).None?
    ensures Top(tags, LeadAt(tags, j, n), n) == j
  {
  }

  lemma LeadBefore(tags: Tags, i: nat, j: nat, n: nat)
    requires i < |tags| && j < |tags| && n <= |tags| && Top(tags, i, n) == j
    ensures LeadAt(tags, j, n) <= i
  {
  }

  /** Everything that ended up under root `j` came from a root that ended up there. */
  lemma GroupedMember(cs: seq<Container>, roots: seq<nat>, tags: Tags, n: nat, ds: seq<Container>, j: nat, y: nat)
    requires Forest(cs) && RootList(cs, roots) && n <= |tags| == |roots|
    requires Grouped(cs, roots, tags, n, ds)
    requires j < |roots| && y < |cs| && RootOf(ds, y) == roots[j]
    ensures exists i :: 0 <= i < |roots| && RootOf(cs, y) == roots[i] && Top(tags, i, n) == j
  {
    if RootOf(cs, y) in roots {
      var i :| 0 <= i < |roots| && RootOf(cs, y) == roots[i];
      assert roots[Top(tags, i, n)] == roots[j];
      RootsDistinct(cs, roots);
    }
  }

  lemma RootsDistinct(cs: seq<Container>, roots: seq<nat>)
    requires Acyclic(cs) && RootList(cs, roots)
    ensures Distinct(roots)
  {
  }

  // ----- one more visit -----

  lemma TopStep(tags: Tags, i: nat, n: nat)
    requires i < |tags| && n < |tags|
    ensures Top(tags, i, n + 1) ==
            if Visit(tags, n).Some? && Top(tags, i, n) == Visit(tags, n).value.0 then Visit(tags, n).value.1
            else Top(tags, i, n)
  {
  }

  lemma GroupedStart(cs: seq<Container>, roots: seq<nat>, tags: Tags)
    requires Forest(cs) && RootList(cs, roots) && |tags| == |roots|
    ensures Grouped(cs, roots, tags, 0, cs)
  {
  }

  lemma GroupedStay(cs: seq<Container>, roots: seq<nat>, tags: Tags, n: nat, ds: seq<Container>)
    requires Forest(cs) && n < |tags| == |roots| && Grouped(cs, roots, tags, n, ds)
    requires Visit(tags, n).None?
    ensures Grouped(cs, roots, tags, n + 1, ds)
  {
    hide Acyclic, ChildrenPointBack, ParentsListChildren, RootOf, Adopter, Top, Visit;
    forall j | 0 <= j < |roots| ensures AdopterOf(roots, tags, j, n + 1) == AdopterOf(roots, tags, j, n) {
      if j <= n { AdopterStep(tags, j, n); }
    }
    assert GroupedParents(cs, roots, tags, n + 1, ds);
    forall x, j | 0 <= x < |cs| && 0 <= j < |roots| && RootOf(cs, x) == roots[j]
      ensures RootOf(ds, x) == roots[Top(tags, j, n + 1)]
    {
      TopStep(tags, j, n);
      assert RootOf(ds, x) == roots[Top(tags, j, n)];
    }
  }

  /** Both ends of the link a visit makes are parentless, so the attempt succeeds. */
  lemma VisitLinks(cs: seq<Container>, roots: seq<nat>, tags: Tags, n: nat, ds: seq<Container>)
    requires Forest(cs) && RootList(cs, roots) && n < |tags| == |roots| && Grouped(cs, roots, tags, n, ds)
    requires Visit(tags, n).Some?
    ensures var (c, p) := Visit(tags, n).value;
            && roots[c] < |ds| && roots[p] < |ds| && roots[c] != roots[p]
            && ds[roots[c]].parent.None? && ds[roots[p]].parent.None?
            && AfterAttempt(ds, roots[c], roots[p]) == Linked(ds, roots[c], roots[p])
            && Forest(Linked(ds, roots[c], roots[p]))
  {
    hide Acyclic, ChildrenPointBack, ParentsListChildren, Path, GroupedTrees;
    var (c, p) := Visit(tags, n).value;
    var h := Holder(tags, tags[n].0, n).value;
    HolderIsFree(tags, h, n);
    RootsDistinct(cs, roots);
    LinkRoots(ds, roots[c], roots[p], roots[c]);
  }

  lemma GroupedLink(cs: seq<Container>, roots: seq<nat>, tags: Tags, n: nat, ds: seq<Container>)
    requires Forest(cs) && RootList(cs, roots) && n < |tags| == |roots| && Grouped(cs, roots, tags, n, ds)
    requires Visit(tags, n).Some?
    requires var (c, p) := Visit(tags, n).value;
             && roots[c] < |ds| && roots[p] < |ds| && roots[c] != roots[p]
             && ds[roots[c]].parent.None? && ds[roots[p]].parent.None?
             && Forest(Linked(ds, roots[c], roots[p]))
    ensures var (c, p) := Visit(tags, n).value;
            Grouped(cs, roots, tags, n + 1, Linked(ds, roots[c], roots[p]))
  {
    hide GroupedParents, GroupedTrees;
    RootsDistinct(cs, roots);
    LinkParents(cs, roots, tags, n, ds);
    LinkTrees(cs, roots, tags, n, ds);
  }

  lemma LinkParents(cs: seq<Container>, roots: seq<nat>, tags: Tags, n: nat, ds: seq<Container>)
    requires n < |tags| == |roots| && GroupedParents(cs, roots, tags, n, ds)
    requires Visit(tags, n).Some? && Distinct(roots)
    requires var (c, p) := Visit(tags, n).value;
             roots[c] < |ds| && roots[p] < |ds| && roots[c] != roots[p]
    ensures var (c, p) := Visit(tags, n).value;
            GroupedParents(cs, roots, tags, n + 1, Linked(ds, roots[c], roots[p]))
  {
    hide Adopter, Visit;
    var (c, p) := Visit(tags, n).value;
    forall j | 0 <= j < |roots|
      ensures AdopterOf(roots, tags, j, n + 1) == if j == c then Some(roots[p]) else AdopterOf(roots, tags, j, n)
    {
      if j <= n { AdopterStep(tags, j, n); }
    }
  }

  lemma LinkTrees(cs: seq<Container>, roots: seq<nat>, tags: Tags, n: nat, ds: seq<Container>)
    requires Acyclic(cs) && Forest(ds) && |ds| == |cs| && n < |tags| == |roots|
    requires GroupedTrees(cs, roots, tags, n, ds)
    requires Visit(tags, n).Some? && Distinct(roots)
    requires var (c, p) := Visit(tags, n).value;
             && roots[c] < |ds| && roots[p] < |ds| && roots[c] != roots[p]
             && ds[roots[c]].parent.None? && ds[roots[p]].parent.None?
             && Forest(Linked(ds, roots[c], roots[p]))
    ensures var (c, p) := Visit(tags, n).value;
            GroupedTrees(cs, roots, tags, n + 1, Linked(ds, roots[c], roots[p]))
  {
    hide Acyclic, ChildrenPointBack, ParentsListChildren, RootOf, Top, Visit;
    var (c, p) := Visit(tags, n).value;
    var es := Linked(ds, roots[c], roots[p]);
    forall x | 0 <= x < |cs|
      ensures RootOf(es, x) == if RootOf(ds, x) == roots[c] then roots[p] else RootOf(ds, x)
    {
      LinkRoots(ds, roots[c], roots[p], x);
    }
    forall x, j | 0 <= x < |cs| && 0 <= j < |roots| && RootOf(cs, x) == roots[j]
      ensures RootOf(es, x) == roots[Top(tags, j, n + 1)]
    {
      TopStep(tags, j, n);
      assert RootOf(ds, x) == roots[Top(tags, j, n)];
    }
  }

  // ----- the loop itself -----

  /** The table of holders matches what the tags say. */
  ghost predicate HoldersMatch(holders: map<string, nat>, roots: seq<nat>, tags: Tags, n: nat)
    requires n <= |tags| == |roots|
  {
    forall key :: if key in holders then
                    key != "" && Holder(tags, key, n).Some? && holders[key] == roots[Holder(tags, key, n).value]
                  else key == "" || Holder(tags, key, n).None?
  }

  /** The merged roots are those that gained a parent. */
  ghost predicate MergedMatch(merged: seq<nat>, roots: seq<nat>, tags: Tags, n: nat)
    requires n <= |tags| == |roots|
  {
    forall j :: 0 <= j < |roots| ==> (roots[j] in merged <==> j < n && Adopter(tags, j, n).Some?)
  }

  /** The roots left after removing the merged ones, in their order. */
  function Retain(roots: seq<nat>, merged: seq<nat>): (kept: seq<nat>)
  {
    if roots == [] then []
    else (if roots[0] in merged then [] else [roots[0]]) + Retain(roots[1..], merged)
  }

  /** The roots that still have no parent, in their order. */
  ghost function Remaining(cs: seq<Container>, roots: seq<nat>): (kept: seq<nat>)
    requires forall k :: 0 <= k < |roots| ==> roots[k] < |cs|
    ensures forall x :: x in kept <==> x in roots && cs[x].parent.None?
  {
    if roots == [] then []
    else (if cs[roots[0]].parent.Some? then [] else [roots[0]]) + Remaining(cs, roots[1..])
  }

  lemma {:induction false} RetainIsRemaining(cs: seq<Container>, roots: seq<nat>, merged: seq<nat>)
    requires forall k :: 0 <= k < |roots| ==> roots[k] < |cs|
    requires forall k :: 0 <= k < |roots| ==> (roots[k] in merged <==> cs[roots[k]].parent.Some?)
    ensures Retain(roots, merged) == Remaining(cs, roots)
  {
    if roots != [] {
      RetainIsRemaining(cs, roots[1..], merged);
    }
  }

  lemma HoldersStep(holders: map<string, nat>, roots: seq<nat>, tags: Tags, n: nat)
    requires n < |tags| == |roots| && HoldersMatch(holders, roots, tags, n)
    ensures Visit(tags, n).None? ==>
              HoldersMatch(if tags[n].0 == "" then holders else holders[tags[n].0 := roots[n]], roots, tags, n + 1)
    ensures Visit(tags, n).Some? ==>
              HoldersMatch(if TakesOver(tags, n) then holders[tags[n].0 := roots[n]] else holders, roots, tags, n + 1)
  {
    hide Holder, Eldest;
    forall key ensures Holder(tags, key, n + 1) ==
                       if tags[n].0 != key then Holder(tags, key, n)
                       else if Holder(tags, key, n).None? || TakesOver(tags, n) then Some(n)
                       else Holder(tags, key, n)
    {
      HolderStep(tags, n, key);
    }
  }

  lemma MergedStep(merged: seq<nat>, roots: seq<nat>, tags: Tags, n: nat)
    requires n < |tags| == |roots| && Distinct(roots) && MergedMatch(merged, roots, tags, n)
    ensures MergedMatch(if Visit(tags, n).Some? then merged + [roots[Visit(tags, n).value.0]] else merged,
                        roots, tags, n + 1)
  {
  }

  /** What the loop finds out about root `n` and about the holder it meets. */
  lemma VisitFacts(cs: seq<Container>, roots: seq<nat>, tags: Tags, n: nat, ds: seq<Container>)
    requires Forest(cs) && RootList(cs, roots) && n < |tags| == |roots|
    requires Grouped(cs, roots, tags, n, ds)
    ensures roots[n] < |ds| && Oldest(cs, roots[n]).Some? && Oldest(ds, roots[n]) == Oldest(cs, roots[n])
    ensures tags[n].0 != "" && Holder(tags, tags[n].0, n).Some? ==>
              var h, e := Holder(tags, tags[n].0, n).value, Eldest(tags, tags[n].0, n).value;
              && roots[h] < |ds| && roots[h] != roots[n] && Oldest(cs, roots[e]).Some?
              && Oldest(ds, roots[h]) == Oldest(cs, roots[e])
              && Oldest(cs, roots[e]).value < Oldest(cs, roots[n]).value
  {
    hide Acyclic, ChildrenPointBack, ParentsListChildren, Oldest;
    assert IsRoot(cs, roots[n]);
    GroupedOldest(cs, roots, tags, n, ds, n);
    RootsDistinct(cs, roots);
    if tags[n].0 != "" && Holder(tags, tags[n].0, n).Some? {
      var h, e := Holder(tags, tags[n].0, n).value, Eldest(tags, tags[n].0, n).value;
      HolderIsFree(tags, h, n);
      GroupedOldest(cs, roots, tags, n, ds, h);
      assert IsRoot(cs, roots[e]);
    }
  }

  /** Pulls together roots that share a subject, and returns the roots that are left. */
  method GroupBySubject(arena: Arena, roots: seq<nat>, records: seq<Record>, normalise: string -> (string, bool),
                        ghost links: Links)
    returns (kept: seq<nat>)
    requires arena.Valid() && Spells(arena.containers, arena.names, links)
    requires RootList(arena.containers, roots) && |records| == |arena.byArticle|
    requires forall k :: 0 <= k < |roots| ==> Oldest(arena.containers, roots[k]).value < |records|
    modifies arena`containers
    ensures arena.Valid()
    ensures Grouped(old(arena.containers), roots, TagsOf(old(arena.containers), roots, records, normalise),
                    |roots|, arena.containers)
    ensures forall k :: 0 <= k < |roots| ==> roots[k] < |arena.containers|
    ensures kept == Remaining(arena.containers, roots)
  {
    hide Acyclic, ChildrenPointBack, ParentsListChildren, Placed, TablesAgree, Oldest, Spells, Grouped, Adopter,
         Holder, Eldest, LastOpener, RootList, Attempt, Linked, Path, HoldersMatch, MergedMatch, Visit, TakesOver, Remaining,
         TagsOf, Retain;
    ghost var cs := arena.containers;
    ghost var tags := TagsOf(cs, roots, records, normalise);
    ghost var spelled := links;
    var holders: map<string, nat> := map[];
    var merged: seq<nat> := [];
    GroupedStart(cs, roots, tags);
    RootsDistinct(cs, roots);
    TablesStart(roots, tags);
    for n := 0 to |roots|
      invariant arena.Valid() && Spells(arena.containers, arena.names, spelled)
      invariant Grouped(cs, roots, tags, n, arena.containers)
      invariant HoldersMatch(holders, roots, tags, n) && MergedMatch(merged, roots, tags, n)
    {
      VisitFacts(cs, roots, tags, n, arena.containers);
      HoldersStep(holders, roots, tags, n);
      MergedStep(merged, roots, tags, n);
      var id := roots[n];
      var first := arena.FirstArticle(id);
      if first.Some? && first.value < |records| {
        var (subject, isReply) := normalise(records[first.value].subject);
        HolderLookup(holders, roots, tags, n);
        if subject == "" {
          GroupedStay(cs, roots, tags, n, arena.containers);
        } else if subject !in holders {
          holders := holders[subject := id];
          GroupedStay(cs, roots, tags, n, arena.containers);
        } else if holders[subject] != id {
          var holder := holders[subject];
          var holderFirst := arena.FirstArticle(holder);
          var holderIsReply := holderFirst.Some? && holderFirst.value < |records|
                               && normalise(records[holderFirst.value].subject).1;
          var parent, child := holder, id;
          if isReply && !holderIsReply {
          } else if holderIsReply && !isReply {
            holders := holders[subject := id];
            parent, child := id, holder;
          } else if holderFirst.Some? && first.value < holderFirst.value {
            holders := holders[subject := id];
            parent, child := id, holder;
          }
          VisitLinks(cs, roots, tags, n, arena.containers);
          GroupedLink(cs, roots, tags, n, arena.containers);
          arena.SetParent(child, parent, spelled);
          spelled := Attempt(spelled, arena.names[child], arena.names[parent]);
          merged := merged + [child];
        }
      }
    }
    GroupedRoots(cs, roots, tags, arena.containers);
    MergedAll(merged, cs, roots, tags, arena.containers);
    RetainIsRemaining(arena.containers, roots, merged);
    kept := Retain(roots, merged);
  }

  lemma TablesStart(roots: seq<nat>, tags: Tags)
    requires |tags| == |roots|
    ensures HoldersMatch(map[], roots, tags, 0) && MergedMatch([], roots, tags, 0)
  {
  }

  /** Looking a subject up finds its holder, and says which way a visit goes. */
  lemma HolderLookup(holders: map<string, nat>, roots: seq<nat>, tags: Tags, n: nat)
    requires n < |tags| == |roots| && HoldersMatch(holders, roots, tags, n)
    ensures Visit(tags, n).None? <==> tags[n].0 !in holders
    ensures tags[n].0 in holders ==>
              var h := Holder(tags, tags[n].0, n).value;
              && tags[n].0 != "" && Holder(tags, tags[n].0, n).Some? && holders[tags[n].0] == roots[h]
              && Eldest(tags, tags[n].0, n).Some?
              && TakesOver(tags, n) == (tags[Eldest(tags, tags[n].0, n).value].1 && !tags[n].1)
              && Visit(tags, n) == Some(if TakesOver(tags, n) then (h, n) else (n, h))
  {
  }

  lemma GroupedRoots(cs: seq<Container>, roots: seq<nat>, tags: Tags, ds: seq<Container>)
    requires Acyclic(cs) && |tags| == |roots| && Grouped(cs, roots, tags, |roots|, ds)
    ensures forall k :: 0 <= k < |roots| ==> roots[k] < |ds|
  {
  }

  lemma MergedAll(merged: seq<nat>, cs: seq<Container>, roots: seq<nat>, tags: Tags, ds: seq<Container>)
    requires Acyclic(cs) && |tags| == |roots| && Grouped(cs, roots, tags, |roots|, ds)
    requires MergedMatch(merged, roots, tags, |roots|)
    requires forall k :: 0 <= k < |roots| ==> roots[k] < |ds|
    ensures forall k :: 0 <= k < |roots| ==> (roots[k] in merged <==> ds[roots[k]].parent.Some?)
  {
  }

  /** In the arena: a root that is not a reply hangs under a later one exactly when a reply starts its
      subject and there is a later one. */
  lemma TakenOverRoots(cs: seq<Container>, roots: seq<nat>, tags: Tags, ds: seq<Container>, a: nat)
    requires Acyclic(cs) && RootList(cs, roots) && |tags| == |roots| && Grouped(cs, roots, tags, |roots|, ds)
    requires a < |roots| && !tags[a].1
    ensures roots[a] < |ds|
    ensures (exists b: nat :: a < b < |roots| && !tags[b].1 && ds[roots[a]].parent == Some(roots[b])) <==>
            exists b :: OpenedAgain(tags, a, b)
  {
    hide Acyclic, Oldest, GroupedTrees, Adopter, OpenedAgain, RootList;
    RootsDistinct(cs, roots);
    TakenOverIff(tags, a);
    assert ds[roots[a]].parent == AdopterOf(roots, tags, a, |roots|);
    if b: nat :| TakenOver(tags, a, b) {
      assert ds[roots[a]].parent == Some(roots[b]);
    }
    if b: nat :| a < b < |roots| && !tags[b].1 && ds[roots[a]].parent == Some(roots[b]) {
      assert Adopter(tags, a, |tags|) == Some(b);
      assert TakenOver(tags, a, b);
    }
  }

  /** The roots that remain are oldest-first unless a takeover leapt over one of them. */
  lemma RemainingOrder(cs: seq<Container>, roots: seq<nat>, tags: Tags, ds: seq<Container>)
    requires Forest(cs) && RootList(cs, roots) && |tags| == |roots| && Grouped(cs, roots, tags, |roots|, ds)
    ensures (forall j, k :: 0 <= j < k < |roots| && IsRoot(ds, roots[j]) && IsRoot(ds, roots[k]) ==>
               Oldest(ds, roots[j]).value < Oldest(ds, roots[k]).value)
            <==> !exists reply, other, opener :: Leapfrogged(tags, reply, other, opener)
  {
    hide Acyclic, ChildrenPointBack, ParentsListChildren, Oldest, GroupedParents, GroupedTrees, Leapfrogged, Free, Lead;
    OrderKeptUnlessLeapfrogged(tags);
    forall j | 0 <= j < |roots| ensures IsRoot(ds, roots[j]) <==> Free(tags, j) {
      FreeIsRoot(cs, roots, tags, ds, j);
    }
    forall j, k | 0 <= j < k < |roots| && IsRoot(ds, roots[j]) && IsRoot(ds, roots[k])
      ensures Oldest(ds, roots[j]).value < Oldest(ds, roots[k]).value <==> Lead(tags, j) < Lead(tags, k)
    {
      FreeIsRoot(cs, roots, tags, ds, j);
      FreeIsRoot(cs, roots, tags, ds, k);
      LeadsDiffer(tags, j, k);
      RootsOrdered(cs, roots, Lead(tags, j), Lead(tags, k));
    }
    OrderTransfer(ds, roots, tags);
  }

  lemma OrderTransfer(ds: seq<Container>, roots: seq<nat>, tags: Tags)
    requires Acyclic(ds) && |tags| == |roots|
    requires forall j :: 0 <= j < |roots| ==> (IsRoot(ds, roots[j]) <==> Free(tags, j))
    requires forall j, k :: 0 <= j < k < |roots| && IsRoot(ds, roots[j]) && IsRoot(ds, roots[k]) ==>
               (Oldest(ds, roots[j]).value < Oldest(ds, roots[k]).value <==> Lead(tags, j) < Lead(tags, k))
    ensures (forall j, k :: 0 <= j < k < |roots| && IsRoot(ds, roots[j]) && IsRoot(ds, roots[k]) ==>
               Oldest(ds, roots[j]).value < Oldest(ds, roots[k]).value)
            <==> OldestFirst(tags)
  {
  }

  /** A root nobody adopts is parentless, and leads with the article its subject started with. */
  lemma FreeIsRoot(cs: seq<Container>, roots: seq<nat>, tags: Tags, ds: seq<Container>, j: nat)
    requires Forest(cs) && RootList(cs, roots) && |tags| == |roots| && Grouped(cs, roots, tags, |roots|, ds)
    requires j < |roots|
    ensures IsRoot(ds, roots[j]) <==> Free(tags, j)
    ensures Free(tags, j) ==> Oldest(ds, roots[j]) == Oldest(cs, roots[Lead(tags, j)])
  {
    hide ChildrenPointBack, ParentsListChildren, Oldest, GroupedTrees, Adopter;
    if ds[roots[j]].parent.None? {
      GroupedOldest(cs, roots, tags, |roots|, ds, j);
      assert IsRoot(cs, roots[Lead(tags, j)]);
    }
  }

  lemma RootsOrdered(cs: seq<Container>, roots: seq<nat>, i: nat, j: nat)
    requires Acyclic(cs) && RootList(cs, roots) && i < |roots| && j < |roots| && i != j
    ensures Oldest(cs, roots[i]).Some? && Oldest(cs, roots[j]).Some?
    ensures Oldest(cs, roots[i]).value < Oldest(cs, roots[j]).value <==> i < j
  {
  }
}
