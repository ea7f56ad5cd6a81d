/** Grouping articles into conversations: the whole pipeline, from records to trees. */
module Threading {
  import opened Options
  import opened Sequences
  import opened Forests
  import opened References
  import opened Clamping
  import opened Arenas
  import opened Subjects
  import opened Grouping
  import opened ThreadTrees

  // ----- inserting -----

  /** The arena when the first `n` records have been inserted and nothing is linked yet. */
  ghost predicate Inserted(records: seq<Record>, n: nat, cs: seq<Container>, byId: map<string, nat>,
                           byArticle: seq<nat>, names: seq<Name>)
    requires n <= |records|
  {
    && Consistent(cs, byId, byArticle, names) && |byArticle| == n
    && (forall x :: 0 <= x < |cs| ==> cs[x].parent.None? && cs[x].article.Some?)
    && (forall i :: 0 <= i < n ==> byArticle[i] < |names| && names[byArticle[i]] == NameOf(records, i))
    && (forall id :: id in byId <==> exists i :: 0 <= i < n && records[i].messageId == Some(id))
  }

  lemma InsertedSpellsNothing(records: seq<Record>, n: nat, cs: seq<Container>, byId: map<string, nat>,
                              byArticle: seq<nat>, names: seq<Name>)
    requires n <= |records| && Inserted(records, n, cs, byId, byArticle, names)
    ensures Spells(cs, names, map[])
  {
  }

  /** A record's container bears its id exactly when no earlier record claimed it. */
  lemma InsertedStep(records: seq<Record>, n: nat, cs: seq<Container>, byId: map<string, nat>,
                     byArticle: seq<nat>, names: seq<Name>, byId': map<string, nat>, name: Name)
    requires n < |records| && Inserted(records, n, cs, byId, byArticle, names)
    requires if records[n].messageId.Some? && records[n].messageId.value !in byId
             then byId' == byId[records[n].messageId.value := |cs|] && name == Id(records[n].messageId.value)
             else byId' == byId && name == Unclaimed(n)
    ensures Inserted(records, n + 1, Grown(cs, Some(n)), byId', byArticle + [|cs|], names + [name])
  {
    var claims := records[n].messageId.Some? && records[n].messageId.value !in byId;
    assert name == NameOf(records, n) by {
      if records[n].messageId.Some? {
        assert records[n].messageId.value in byId <==>
               exists i :: 0 <= i < n && records[i].messageId == Some(records[n].messageId.value);
      }
    }
    if claims {
      AddBearer(cs, byId, byArticle, names, records[n].messageId.value);
    } else {
      AddUnclaimed(cs, byId, byArticle, names);
    }
    forall id ensures id in byId' <==> exists i :: 0 <= i < n + 1 && records[i].messageId == Some(id) {
      if records[n].messageId == Some(id) {
        assert id in byId';
      } else if id in byId {
        var i :| 0 <= i < n && records[i].messageId == Some(id);
      }
    }
  }

  method InsertAll(arena: Arena, records: seq<Record>)
    requires arena.Valid() && arena.containers == [] && arena.byId == map[] && arena.byArticle == []
    requires arena.names == []
    modifies arena
    ensures arena.Valid()
    ensures Inserted(records, |records|, arena.containers, arena.byId, arena.byArticle, arena.names)
  {
    hide Consistent, NameOf;
    InsertedStart(records, arena.containers, arena.byId, arena.byArticle, arena.names);
    for index := 0 to |records|
      invariant arena.Valid()
      invariant Inserted(records, index, arena.containers, arena.byId, arena.byArticle, arena.names)
    {
      ghost var cs, byId, byArticle, names := arena.containers, arena.byId, arena.byArticle, arena.names;
      NoneWaiting(records, index, cs, byId, byArticle, names);
      arena.Insert(index, records[index]);
      InsertedStep(records, index, cs, byId, byArticle, names, arena.byId, arena.names[|names|]);
    }
  }

  lemma InsertedStart(records: seq<Record>, cs: seq<Container>, byId: map<string, nat>, byArticle: seq<nat>, names: seq<Name>)
    requires cs == [] && byId == map[] && byArticle == [] && names == []
    ensures Inserted(records, 0, cs, byId, byArticle, names)
  {
    EmptyConsistent();
  }

  /** While inserting, no container is waiting for its article. */
  lemma NoneWaiting(records: seq<Record>, n: nat, cs: seq<Container>, byId: map<string, nat>,
                    byArticle: seq<nat>, names: seq<Name>)
    requires n <= |records| && Inserted(records, n, cs, byId, byArticle, names)
    ensures |names| == |cs| && forall id :: id in byId ==> byId[id] < |cs| && cs[byId[id]].article.Some?
  {
  }

  // ----- linking -----

  lemma LinkedStart(records: seq<Record>)
    ensures LinkedUpTo(records, 0) == map[]
  {
  }

  lemma LinkedStep(records: seq<Record>, index: nat)
    requires index < |records|
    ensures LinkedUpTo(records, index + 1) ==
            LinkChain(LinkedUpTo(records, index), Ids(NearReferences(records[index])) + [NameOf(records, index)])
  {
  }

  method LinkAll(arena: Arena, records: seq<Record>)
    requires arena.Valid()
    requires Inserted(records, |records|, arena.containers, arena.byId, arena.byArticle, arena.names)
    modifies arena
    ensures arena.Valid() && |arena.byArticle| == |records|
    ensures forall i :: 0 <= i < |records| ==>
              arena.byArticle[i] < |arena.names| && arena.names[arena.byArticle[i]] == NameOf(records, i)
    ensures Spells(arena.containers, arena.names, LinkedRecords(records))
  {
    hide Consistent, NameOf, Spells, LinkChain, LinkedUpTo, NearReferences, Ids;
    LinkedStart(records);
    InsertedSpellsNothing(records, |records|, arena.containers, arena.byId, arena.byArticle, arena.names);
    ghost var placed := arena.byArticle;
    for index := 0 to |records|
      invariant arena.Valid() && arena.byArticle == placed && |placed| == |records|
      invariant forall i :: 0 <= i < |records| ==>
                  placed[i] < |arena.names| && arena.names[placed[i]] == NameOf(records, i)
      invariant Spells(arena.containers, arena.names, LinkedUpTo(records, index))
    {
      LinkedStep(records, index);
      arena.LinkReferences(index, records[index], LinkedUpTo(records, index));
    }
  }

  // ----- from the grouped arena to the trees -----

  /** Flattening never moves a container to another tree. */
  lemma {:induction false} FlattenedRoot(cs: seq<Container>, capped: set<nat>, ds: seq<Container>, x: nat)
    requires Forest(cs) && AtCapLevel(cs, capped) && Flattened(cs, capped, ds) && Forest(ds) && x < |cs|
    ensures RootOf(ds, x) == RootOf(cs, x)
    decreases Depths(ds)[x]
  {
    if ds[x].parent.Some? {
      var p := ds[x].parent.value;
      FlattenedRoot(cs, capped, ds, p);
      if UnderAny(cs, capped, x) {
        PathPrefix(cs, x, CAP_LEVEL);
      } else {
        assert cs[x].parent == Some(p);
      }
    }
  }

  /** How deep a container is allowed to stay. */
  function Capped(depth: nat): nat {
    if depth <= 32 then depth else 32
  }

  /** In the flattened arena, a rooted container keeps the first containers of its path. */
  lemma RootedPath(cs: seq<Container>, roots: seq<nat>, capped: set<nat>, ds: seq<Container>, x: nat)
    requires Forest(cs) && AllCaps(cs, roots, capped) && Flattened(cs, capped, ds) && Forest(ds)
    requires Rooted(cs, roots, x)
    ensures Depths(ds)[x] == Capped(Depths(cs)[x])
    ensures Path(ds, x)[..Depths(ds)[x]] == Path(cs, x)[..Capped(Depths(cs)[x])]
  {
    assert AtCapLevel(cs, capped);
    if Depths(cs)[x] >= CAP_LEVEL {
      PathPrefix(cs, x, CAP_LEVEL);
      assert Rooted(cs, roots, Path(cs, x)[CAP_LEVEL]);
    }
    FlattenedPaths(cs, capped, ds, x);
    assert |Path(ds, x)| == Depths(ds)[x] + 1;
  }

  lemma {:induction false} SameArticlesOn(cs: seq<Container>, ds: seq<Container>, ids: seq<nat>)
    requires |ds| == |cs| && forall x :: 0 <= x < |cs| ==> ds[x].article == cs[x].article
    requires forall k :: 0 <= k < |ids| ==> ids[k] < |cs|
    ensures ArticlesOn(ds, ids) == ArticlesOn(cs, ids)
  {
    if ids != [] {
      SameArticlesOn(cs, ds, ids[1..]);
    }
  }

  /** Every article's tree has a root that is left after grouping. */
  lemma ArticlesRooted(cs: seq<Container>, placed: seq<nat>, roots: seq<nat>, tags: Tags, ds: seq<Container>, x: nat)
    requires Forest(cs) && RootList(cs, roots) && |tags| == |roots| && Grouped(cs, roots, tags, |roots|, ds)
    requires x < |cs| && cs[x].article.Some?
    requires forall k :: 0 <= k < |roots| ==> roots[k] < |ds|
    ensures Rooted(ds, Remaining(ds, roots), x)
  {
    hide ChildrenPointBack, ParentsListChildren, Top;
    var root := RootOf(cs, x);
    RootIsParentless(cs, x);
    RootIsParentless(ds, x);
    RootOfPath(cs, root, x);
    assert IsRoot(cs, root);
    var j :| 0 <= j < |roots| && roots[j] == root;
    assert RootOf(ds, x) == roots[Top(tags, j, |roots|)];
  }

  /** Every record is found in the trees below exactly the containers of its path in the flattened arena
      that are worth a node: those that hold an article, and the empty ones with two children or more
      that do somewhere. */
  ghost predicate Noded(threads: seq<ThreadNode>, flat: seq<Container>, placed: seq<nat>)
    requires Forest(flat) && Placed(flat, placed)
  {
    forall a: nat :: a < |placed| ==> SpineAmong(threads, a) == Some(NodesOn(flat, placed, Path(flat, placed[a])))
  }

  /** What the finished list of trees says, given the grouped arena it was built from. */
  ghost predicate Faithful(threads: seq<ThreadNode>, grouped: seq<Container>, placed: seq<nat>, n: nat)
    requires Forest(grouped) && |placed| == n && Placed(grouped, placed)
  {
    && (forall a: nat :: CountAll(threads, a) == if a < n then 1 else 0)
    && (forall a: nat :: a < n ==> TrailAmong(threads, a) == Some(KeptAbove(grouped, placed[a])))
  }

  /** The records among the first 32 containers above `x`. */
  ghost function KeptAbove(cs: seq<Container>, x: nat): seq<nat>
    requires Acyclic(cs) && x < |cs|
  {
    ArticlesOn(cs, Path(cs, x)[..Capped(Depths(cs)[x])])
  }

  /** Building the kept roots of the flattened arena. */
  lemma BuiltFaithfully(cs: seq<Container>, placed: seq<nat>, kept: seq<nat>, capped: set<nat>, ds: seq<Container>, a: nat)
    requires Forest(cs) && Placed(cs, placed) && Forest(ds) && Placed(ds, placed) && Distinct(kept) && |placed| <= USIZE_MAX
    requires AllCaps(cs, kept, capped) && Flattened(cs, capped, ds)
    requires forall r :: r in kept ==> r < |ds| && Depths(ds)[r] == 0
    requires a < |placed| ==> Rooted(cs, kept, placed[a])
    ensures CountAll(BuildAll(ds, kept, 0), a) == if a < |placed| then 1 else 0
    ensures a < |placed| ==>
              && SpineAmong(BuildAll(ds, kept, 0), a) == Some(NodesOn(ds, placed, Path(ds, placed[a])))
              && TrailAmong(BuildAll(ds, kept, 0), a) == Some(KeptAbove(cs, placed[a]))
  {
    hide ChildrenPointBack, ParentsListChildren, Acyclic, UnderAny, NodesOn, TrailAmong;
    BuildAllCount(ds, placed, kept, 0, a);
    if a < |placed| {
      var x := placed[a];
      assert AtCapLevel(cs, capped);
      FlattenedRoot(cs, capped, ds, x);
      var root := RootOf(ds, x);
      assert root in Path(ds, x) && HeldUnder(ds, placed, root, a);
      BuildSpine(ds, placed, root, a);
      BuildAllMember(ds, kept, 0, root);
      var built := BuildAll(ds, kept, 0);
      var i :| 0 <= i < |built| && built[i] == Build(ds, root).value;
      SpineAmongUnique(built, i, a);
      assert Path(ds, x)[0..] == Path(ds, x);
      RootedPath(cs, kept, capped, ds, x);
      SameArticlesOn(cs, ds, Path(cs, x)[..Capped(Depths(cs)[x])]);
      TrailOfSpine(built, ds, placed, a);
    }
  }

  /** The records above one, once the nodes above it are known. */
  lemma TrailOfSpine(built: seq<ThreadNode>, ds: seq<Container>, placed: seq<nat>, a: nat)
    requires Forest(ds) && Placed(ds, placed) && a < |placed|
    requires SpineAmong(built, a) == Some(NodesOn(ds, placed, Path(ds, placed[a])))
    ensures TrailAmong(built, a) == Some(ArticlesOn(ds, Path(ds, placed[a])[..Depths(ds)[placed[a]]]))
  {
    hide Acyclic, ChildrenPointBack, ParentsListChildren, NodesOn, SpineAmong, Own;
    var x := placed[a];
    var above := Path(ds, x)[..Depths(ds)[x]];
    assert Path(ds, x) == above + [x];
    NodesButLast(ds, placed, above, x);
    OwnOnNodes(ds, placed, above);
    var levels := NodesOn(ds, placed, Path(ds, x));
    assert levels[..|levels| - 1] == NodesOn(ds, placed, above);
  }

  lemma BuiltWithin(cs: seq<Container>, kept: seq<nat>, capped: set<nat>, ds: seq<Container>)
    requires Forest(cs) && Forest(ds) && AllCaps(cs, kept, capped) && Flattened(cs, capped, ds)
    requires forall r :: r in kept ==> r < |ds| && Depths(ds)[r] == 0
    ensures forall node :: node in BuildAll(ds, kept, 0) ==> Within(node, MAX_DEPTH)
  {
    hide ChildrenPointBack, ParentsListChildren, UnderAny;
    forall root | root in kept ensures NoDeeper(ds, root, MAX_DEPTH) {
      forall x | 0 <= x < |ds| && root in Path(ds, x) ensures Depths(ds)[x] <= MAX_DEPTH {
        assert AtCapLevel(cs, capped);
        OnPath(ds, root, x);
        FlattenedRoot(cs, capped, ds, x);
        RootedPath(cs, kept, capped, ds, x);
      }
    }
    BuildAllWithin(ds, kept, 0, MAX_DEPTH);
  }

  // ----- the order of the finished trees -----

  /** Each tree starts with a strictly older article than the next. */
  ghost predicate TreesOldestFirst(threads: seq<ThreadNode>) {
    forall i, j :: 0 <= i < j < |threads| ==> threads[i].FirstArticle() < threads[j].FirstArticle()
  }

  /** There is a tree for each of these roots, in their order, and each starts with its root's oldest article. */
  ghost predicate InRootOrder(threads: seq<ThreadNode>, cs: seq<Container>, roots: seq<nat>)
    requires Acyclic(cs)
  {
    && |threads| == |roots|
    && forall k :: 0 <= k < |roots| ==> Oldest(cs, roots[k]) == Some(threads[k].FirstArticle())
  }

  /** Flattening keeps the oldest article of a root. */
  lemma FlattenedOldest(cs: seq<Container>, capped: set<nat>, ds: seq<Container>, root: nat)
    requires Forest(cs) && AtCapLevel(cs, capped) && Flattened(cs, capped, ds) && Forest(ds)
    requires root < |cs| && cs[root].parent.None? && ds[root].parent.None?
    ensures Oldest(ds, root) == Oldest(cs, root)
  {
    hide Acyclic, ChildrenPointBack, ParentsListChildren, Oldest, FlattenedChildren, FlattenedParents, RootOf;
    assert |ds| == |cs| by { SameSize(cs, capped, ds); }
    forall x | 0 <= x < |cs| ensures RootOf(ds, x) == RootOf(cs, x) {
      FlattenedRoot(cs, capped, ds, x);
    }
    forall a: nat ensures Oldest(ds, root) == Some(a) <==> Oldest(cs, root) == Some(a) {
      OldestOfRoot(ds, root, a);
      OldestOfRoot(cs, root, a);
    }
    if Oldest(ds, root).Some? {
      assert Oldest(cs, root) == Some(Oldest(ds, root).value);
    }
  }

  lemma SameSize(cs: seq<Container>, capped: set<nat>, ds: seq<Container>)
    requires Acyclic(cs) && Flattened(cs, capped, ds)
    ensures |ds| == |cs|
  {
  }

  /** The trees come out in the order of their containers, each starting with its oldest article. */
  lemma {:induction false} BuiltInOrder(ds: seq<Container>, placed: seq<nat>, ids: seq<nat>)
    requires Forest(ds) && Placed(ds, placed) && |placed| <= USIZE_MAX
    requires forall id :: id in ids ==> id < |ds| && Depths(ds)[id] == 0 && Oldest(ds, id).Some?
    ensures |BuildAll(ds, ids, 0)| == |ids|
    ensures forall k :: 0 <= k < |ids| ==> BuildAll(ds, ids, 0)[k].FirstArticle() == Oldest(ds, ids[k]).value
  {
    hide Acyclic, ChildrenPointBack, ParentsListChildren, Oldest, Placed, Build, Depths;
    if ids != [] {
      assert ids[0] in ids && forall id :: id in ids[1..] ==> id in ids;
      BuildOldest(ds, placed, ids[0]);
      BuiltInOrder(ds, placed, ids[1..]);
    }
  }

  ghost predicate PairsAscend(ds: seq<Container>, roots: seq<nat>)
    requires Acyclic(ds)
  {
    forall j, k :: 0 <= j < k < |roots| && IsRoot(ds, roots[j]) && IsRoot(ds, roots[k]) ==>
      Oldest(ds, roots[j]).value < Oldest(ds, roots[k]).value
  }

  ghost predicate Before(ds: seq<Container>, x: nat, others: seq<nat>)
    requires Acyclic(ds)
  {
    IsRoot(ds, x) ==> forall k :: 0 <= k < |others| && IsRoot(ds, others[k]) ==> Oldest(ds, x).value < Oldest(ds, others[k]).value
  }

  lemma PairsStep(ds: seq<Container>, roots: seq<nat>)
    requires Acyclic(ds) && roots != []
    ensures PairsAscend(ds, roots) <==> PairsAscend(ds, roots[1..]) && Before(ds, roots[0], roots[1..])
  {
  }

  lemma BeforeRemaining(ds: seq<Container>, x: nat, roots: seq<nat>)
    requires Acyclic(ds) && forall k :: 0 <= k < |roots| ==> roots[k] < |ds| && StillRoot(ds, roots[k])
    ensures Before(ds, x, roots) <==> Before(ds, x, Remaining(ds, roots))
  {
  }

  /** A root that has no parent holds an article. */
  ghost predicate StillRoot(ds: seq<Container>, x: nat)
    requires Acyclic(ds)
  {
    x < |ds| && (ds[x].parent.None? ==> Oldest(ds, x).Some?)
  }

  /** The roots that remain ascend exactly when any two of them do, wherever they stood. */
  lemma {:induction false} RemainingAscend(ds: seq<Container>, roots: seq<nat>)
    requires Acyclic(ds) && forall k :: 0 <= k < |roots| ==> roots[k] < |ds| && StillRoot(ds, roots[k])
    ensures PairsAscend(ds, Remaining(ds, roots)) <==> PairsAscend(ds, roots)
  {
    hide Acyclic, Oldest, PairsAscend, Before;
    if roots != [] {
      var rest := roots[1..];
      RemainingAscend(ds, rest);
      PairsStep(ds, roots);
      BeforeRemaining(ds, roots[0], rest);
      var kept := Remaining(ds, rest);
      if ds[roots[0]].parent.None? {
        var longer := [roots[0]] + kept;
        PairsStep(ds, longer);
        assert longer[1..] == kept;
      } else {
        NotBefore(ds, roots[0], rest);
        assert [] + kept == kept;
      }
    }
  }

  lemma NotBefore(ds: seq<Container>, x: nat, others: seq<nat>)
    requires Acyclic(ds) && x < |ds| && ds[x].parent.Some?
    ensures Before(ds, x, others)
  {
  }

  /** After grouping, a root without a parent still holds an article. */
  lemma GroupedSettled(cs: seq<Container>, roots: seq<nat>, tags: Tags, ds: seq<Container>)
    requires Forest(cs) && RootList(cs, roots) && |tags| == |roots| && Grouped(cs, roots, tags, |roots|, ds)
    ensures forall k :: 0 <= k < |roots| ==> roots[k] < |ds| && StillRoot(ds, roots[k])
  {
    hide Acyclic, Oldest, ChildrenPointBack, ParentsListChildren, GroupedTrees;
    forall k | 0 <= k < |roots| ensures StillRoot(ds, roots[k]) {
      if ds[roots[k]].parent.None? {
        GroupedOldest(cs, roots, tags, |roots|, ds, k);
        assert IsRoot(cs, roots[LeadAt(tags, k, |roots|)]);
      }
    }
  }

  /** The finished trees are oldest-first exactly when no takeover leapt over a remaining root. */
  lemma TreesOrdered(linked: seq<Container>, placed: seq<nat>, roots: seq<nat>, tags: Tags,
                     grouped: seq<Container>, capped: set<nat>, ds: seq<Container>)
    requires |placed| <= USIZE_MAX && Forest(linked) && RootList(linked, roots) && |tags| == |roots|
    requires Grouped(linked, roots, tags, |roots|, grouped) && Forest(grouped) && Placed(ds, placed)
    requires forall k :: 0 <= k < |roots| ==> roots[k] < |grouped|
    requires AtCapLevel(grouped, capped) && Flattened(grouped, capped, ds) && Forest(ds)
    requires forall r :: r in Remaining(grouped, roots) ==> r < |ds| && Depths(ds)[r] == 0
    ensures InRootOrder(BuildAll(ds, Remaining(grouped, roots), 0), grouped, Remaining(grouped, roots))
    ensures TreesOldestFirst(BuildAll(ds, Remaining(grouped, roots), 0)) <==>
            !exists reply, other, opener :: Leapfrogged(tags, reply, other, opener)
  {
    hide Acyclic, Oldest, ChildrenPointBack, ParentsListChildren, GroupedParents, GroupedTrees, Leapfrogged, Placed,
      FlattenedParents, FlattenedChildren, UnderAny, RootList, Depths, BuildAll, TreesOldestFirst,
      PairsAscend, IsRoot, Flattened, AtCapLevel, StillRoot;
    var kept := Remaining(grouped, roots);
    GroupedSettled(linked, roots, tags, grouped);
    PairsUnlessLeapfrogged(linked, roots, tags, grouped);
    RemainingAscend(grouped, roots);
    KeptOldest(grouped, roots, capped, ds);
    BuiltInOrder(ds, placed, kept);
    TreesAscend(BuildAll(ds, kept, 0), grouped, kept);
  }

  lemma PairsUnlessLeapfrogged(cs: seq<Container>, roots: seq<nat>, tags: Tags, ds: seq<Container>)
    requires Forest(cs) && RootList(cs, roots) && |tags| == |roots| && Grouped(cs, roots, tags, |roots|, ds)
    ensures PairsAscend(ds, roots) <==> !exists reply, other, opener :: Leapfrogged(tags, reply, other, opener)
  {
    hide Acyclic, Oldest, ChildrenPointBack, ParentsListChildren, GroupedParents, GroupedTrees, Leapfrogged, IsRoot;
    RemainingOrder(cs, roots, tags, ds);
  }

  lemma KeptOldest(grouped: seq<Container>, roots: seq<nat>, capped: set<nat>, ds: seq<Container>)
    requires Forest(grouped) && AtCapLevel(grouped, capped) && Flattened(grouped, capped, ds) && Forest(ds)
    requires forall k :: 0 <= k < |roots| ==> roots[k] < |grouped| && StillRoot(grouped, roots[k])
    requires forall r :: r in Remaining(grouped, roots) ==> r < |ds| && Depths(ds)[r] == 0
    ensures forall r :: r in Remaining(grouped, roots) ==>
              r < |ds| && Oldest(ds, r).Some? && Oldest(ds, r) == Oldest(grouped, r) && IsRoot(grouped, r)
  {
    hide Acyclic, Oldest, ChildrenPointBack, ParentsListChildren, FlattenedParents, FlattenedChildren, Depths;
    forall r | r in Remaining(grouped, roots)
      ensures r < |ds| && Oldest(ds, r).Some? && Oldest(ds, r) == Oldest(grouped, r) && IsRoot(grouped, r)
    {
      var k :| 0 <= k < |roots| && roots[k] == r;
      DepthZero(ds, r);
      FlattenedOldest(grouped, capped, ds, r);
    }
  }

  lemma TreesAscend(threads: seq<ThreadNode>, cs: seq<Container>, kept: seq<nat>)
    requires Acyclic(cs) && |threads| == |kept|
    requires forall k :: 0 <= k < |kept| ==> IsRoot(cs, kept[k]) && threads[k].FirstArticle() == Oldest(cs, kept[k]).value
    ensures TreesOldestFirst(threads) <==> PairsAscend(cs, kept)
  {
  }

  lemma DepthZero(ds: seq<Container>, r: nat)
    requires Acyclic(ds) && r < |ds| && Depths(ds)[r] == 0
    ensures ds[r].parent.None?
  {
  }

  // ----- the whole pipeline -----

  /** The arena at the stages of a run: after linking, with its roots, after grouping, and flattened onto
      the containers at the cap level. */
  datatype Stages = Stages(linked: seq<Container>, names: seq<Name>, placed: seq<nat>, roots: seq<nat>,
                           grouped: seq<Container>, capped: set<nat>, flat: seq<Container>)

  /** The stages are what the records say they should be: the reference links first, then the
      subject groups of the roots, then the depth limit. */
  ghost predicate Explains(stages: Stages, records: seq<Record>, normalise: string -> (string, bool)) {
    var Stages(linked, names, placed, roots, grouped, capped, flat) := stages;
    && Forest(linked) && Placed(linked, placed) && |placed| == |records|
    && Injective(names) && Spells(linked, names, LinkedRecords(records))
    && (forall i :: 0 <= i < |records| ==> placed[i] < |names| && names[placed[i]] == NameOf(records, i))
    && RootList(linked, roots)
    && (forall k :: 0 <= k < |roots| ==> Oldest(linked, roots[k]).value < |records|)
    && Grouped(linked, roots, TagsOf(linked, roots, records, normalise), |roots|, grouped)
    && Placed(grouped, placed)
    && AllCaps(grouped, Remaining(grouped, roots), capped) && Flattened(grouped, capped, flat)
    && Forest(flat) && Placed(flat, placed)
  }

  // ----- records without references -----

  ghost predicate Unreferenced(records: seq<Record>) {
    forall i :: 0 <= i < |records| ==> records[i].references == []
  }

  function SubjectTags(records: seq<Record>, normalise: string -> (string, bool)): (tags: Tags)
    ensures |tags| == |records| && forall i :: 0 <= i < |records| ==> tags[i] == normalise(records[i].subject)
  {
    seq(|records|, i requires 0 <= i < |records| => normalise(records[i].subject))
  }

  lemma {:induction false} NothingLinked(records: seq<Record>, n: nat)
    requires Unreferenced(records) && n <= |records|
    ensures LinkedUpTo(records, n) == map[]
  {
    if n > 0 {
      NothingLinked(records, n - 1);
      assert records[n - 1].references == [];
      assert |Chain(records, n - 1)| == 1;
    }
  }

  /** Numbers in ascending order, among them everything below `n` and nothing else. */
  lemma {:induction false} AscendingAll(numbers: seq<nat>, n: nat, k: nat)
    requires forall i, j :: 0 <= i < j < |numbers| ==> numbers[i] < numbers[j]
    requires forall i :: 0 <= i < |numbers| ==> numbers[i] < n
    requires forall i :: 0 <= i < n ==> i in numbers
    requires k <= |numbers|
    ensures k <= n && forall i :: 0 <= i < k ==> numbers[i] == i
  {
    if k > 0 {
      AscendingAll(numbers, n, k - 1);
      assert k > 1 ==> numbers[k - 2] == k - 2 && numbers[k - 2] < numbers[k - 1];
      assert k - 1 <= numbers[k - 1] < n;
      assert k - 1 in numbers;
      var j :| 0 <= j < |numbers| && numbers[j] == k - 1;
    }
  }

  /** Without links every record is the root of its own tree. */
  lemma EachAlone(cs: seq<Container>, placed: seq<nat>, roots: seq<nat>)
    requires Forest(cs) && Placed(cs, placed) && RootList(cs, roots)
    requires forall x :: 0 <= x < |cs| ==> cs[x].parent.None?
    ensures |roots| == |placed|
    ensures forall k :: 0 <= k < |roots| ==> Oldest(cs, roots[k]) == Some(k) && roots[k] == placed[k]
  {
    forall x: nat | x < |cs| ensures Oldest(cs, x) == cs[x].article {
      AloneOldest(cs, x);
    }
    var numbers: seq<nat> := seq(|roots|, k requires 0 <= k < |roots| => Oldest(cs, roots[k]).value);
    forall i: nat | i < |placed| ensures i in numbers {
      assert IsRoot(cs, placed[i]);
      var k :| 0 <= k < |roots| && roots[k] == placed[i];
      assert numbers[k] == i;
    }
    AscendingAll(numbers, |placed|, |numbers|);
    assert |numbers| < |placed| ==> |numbers| in numbers;
    forall k | 0 <= k < |roots| ensures Oldest(cs, roots[k]) == Some(k) {
      assert numbers[k] == k && IsRoot(cs, roots[k]);
    }
  }

  lemma AloneOldest(cs: seq<Container>, x: nat)
    requires Forest(cs) && x < |cs|
    requires forall y :: 0 <= y < |cs| ==> cs[y].parent.None?
    ensures Oldest(cs, x) == cs[x].article
  {
    assert forall y: nat :: y < |cs| ==> Path(cs, y) == [y];
    assert forall y: nat :: y < |cs| ==> (Holds(cs, x, y) <==> x == y);
    assert IsOldest(cs, x, |cs|, cs[x].article);
    OldestUnique(cs, x, Oldest(cs, x), cs[x].article);
  }

  /** Records without references are grouped by their subjects alone, so any list of tags arises. */
  lemma TagsAreSubjects(stages: Stages, records: seq<Record>, normalise: string -> (string, bool))
    requires Explains(stages, records, normalise) && Unreferenced(records)
    ensures TagsOf(stages.linked, stages.roots, records, normalise) == SubjectTags(records, normalise)
    ensures stages.roots == stages.placed
  {
    hide Forest, Placed, RootList, Oldest, Grouped;
    NothingLinked(records, |records|);
    EachAlone(stages.linked, stages.placed, stages.roots);
  }

  /** Each record without references is left where its subject puts it. */
  lemma UnreferencedParents(stages: Stages, records: seq<Record>, normalise: string -> (string, bool))
    requires Explains(stages, records, normalise) && Unreferenced(records)
    ensures |stages.placed| == |records| && forall i :: 0 <= i < |records| ==> stages.placed[i] < |stages.grouped|
    ensures forall i :: 0 <= i < |records| ==>
              stages.grouped[stages.placed[i]].parent ==
              AdopterOf(stages.placed, SubjectTags(records, normalise), i, |records|)
  {
    hide Acyclic, RootList, Oldest, GroupedTrees, Spells, AdopterOf;
    TagsAreSubjects(stages, records, normalise);
  }

  /** A reply, an unrelated article and then what the reply answers: the trees come out in the wrong order. */
  lemma TreesCanBreak(stages: Stages, normalise: string -> (string, bool))
    requires normalise("Re: x") == ("x", true) && normalise("y") == ("y", false) && normalise("x") == ("x", false)
    requires Explains(stages, [Record(None, "Re: x", []), Record(None, "y", []), Record(None, "x", [])], normalise)
    ensures Leapfrogged(TagsOf(stages.linked, stages.roots,
                               [Record(None, "Re: x", []), Record(None, "y", []), Record(None, "x", [])], normalise), 0, 1, 2)
  {
    hide Explains;
    var records := [Record(None, "Re: x", []), Record(None, "y", []), Record(None, "x", [])];
    TagsAreSubjects(stages, records, normalise);
    var tags := SubjectTags(records, normalise);
    assert tags[0] == ("x", true) && tags[1] == ("y", false) && tags[2] == ("x", false);
    assert Eldest(tags, "x", 1) == Some(0) && Eldest(tags, "x", 3) == Some(0);
    assert Eldest(tags, "y", 2) == Some(1) && Eldest(tags, "y", 3) == Some(1);
    assert LastOpener(tags, "x", 3) == Some(2);
  }

  /** A reply and then two articles with the subject it answers: each goes below the next. */
  lemma ArticlesStack(stages: Stages, normalise: string -> (string, bool))
    requires normalise("Re: x") == ("x", true) && normalise("x") == ("x", false)
    requires Explains(stages, [Record(None, "Re: x", []), Record(None, "x", []), Record(None, "x", [])], normalise)
    ensures |stages.placed| == 3 && forall i :: 0 <= i < 3 ==> stages.placed[i] < |stages.grouped|
    ensures stages.grouped[stages.placed[0]].parent == Some(stages.placed[1])
    ensures stages.grouped[stages.placed[1]].parent == Some(stages.placed[2])
    ensures stages.grouped[stages.placed[2]].parent == None
  {
    hide Explains, Adopter;
    var records := [Record(None, "Re: x", []), Record(None, "x", []), Record(None, "x", [])];
    TakeoversStack();
    assert SubjectTags(records, normalise) == [("x", true), ("x", false), ("x", false)];
    UnreferencedParents(stages, records, normalise);
  }

  lemma RootsHoldRecords(cs: seq<Container>, placed: seq<nat>, roots: seq<nat>)
    requires Forest(cs) && Placed(cs, placed) && RootList(cs, roots)
    ensures forall k :: 0 <= k < |roots| ==> Oldest(cs, roots[k]).value < |placed|
  {
  }

  lemma RemainingDistinct(cs: seq<Container>, roots: seq<nat>)
    requires Distinct(roots) && forall k :: 0 <= k < |roots| ==> roots[k] < |cs|
    ensures Distinct(Remaining(cs, roots))
  {
  }

  /** The trees built from the flattened arena are faithful to the grouped one. */
  lemma Finished(grouped: seq<Container>, placed: seq<nat>, kept: seq<nat>, capped: set<nat>, ds: seq<Container>)
    requires |placed| <= USIZE_MAX && Forest(grouped) && Placed(grouped, placed)
    requires Distinct(kept) && forall r :: r in kept ==> r < |grouped| && grouped[r].parent.None?
    requires forall a: nat :: a < |placed| ==> Rooted(grouped, kept, placed[a])
    requires AllCaps(grouped, kept, capped) && Flattened(grouped, capped, ds)
    ensures Forest(ds)
    ensures forall r :: r in kept ==> r < |ds| && Depths(ds)[r] == 0
    ensures var threads := BuildAll(ds, kept, 0);
            && Faithful(threads, grouped, placed, |placed|) && Placed(ds, placed) && Noded(threads, ds, placed)
            && ShapedAll(threads) && forall node :: node in threads ==> Within(node, MAX_DEPTH)
  {
    hide Acyclic, ChildrenPointBack, ParentsListChildren, FlattenedChildren, UnderAny;
    assert AtCapLevel(grouped, capped);
    FlattenedForest(grouped, capped, ds);
    KeptStayRoots(grouped, capped, ds, kept);
    assert Placed(ds, placed);
    forall a: nat
      ensures CountAll(BuildAll(ds, kept, 0), a) == if a < |placed| then 1 else 0
      ensures a < |placed| ==>
                && SpineAmong(BuildAll(ds, kept, 0), a) == Some(NodesOn(ds, placed, Path(ds, placed[a])))
                && TrailAmong(BuildAll(ds, kept, 0), a) == Some(KeptAbove(grouped, placed[a]))
    {
      BuiltFaithfully(grouped, placed, kept, capped, ds, a);
    }
    BuiltWithin(grouped, kept, capped, ds);
    BuildAllShaped(ds, placed, kept, 0);
  }

  /** After grouping, every record is in a tree whose root is left. */
  lemma AllRooted(cs: seq<Container>, placed: seq<nat>, roots: seq<nat>, tags: Tags, ds: seq<Container>)
    requires Forest(cs) && Placed(cs, placed) && RootList(cs, roots)
    requires |tags| == |roots| && Grouped(cs, roots, tags, |roots|, ds)
    requires forall k :: 0 <= k < |roots| ==> roots[k] < |ds|
    ensures Distinct(Remaining(ds, roots))
    ensures forall a: nat :: a < |placed| ==> Rooted(ds, Remaining(ds, roots), placed[a])
  {
    RootsDistinct(cs, roots);
    RemainingDistinct(ds, roots);
    forall a: nat | a < |placed| ensures Rooted(ds, Remaining(ds, roots), placed[a]) {
      ArticlesRooted(cs, placed, roots, tags, ds, placed[a]);
    }
  }

  lemma KeptStayRoots(cs: seq<Container>, capped: set<nat>, ds: seq<Container>, kept: seq<nat>)
    requires Forest(cs) && AtCapLevel(cs, capped) && Flattened(cs, capped, ds) && Forest(ds)
    requires forall r :: r in kept ==> r < |cs| && cs[r].parent.None?
    ensures forall r :: r in kept ==> r < |ds| && Depths(ds)[r] == 0
  {
  }

  /** Groups records into threads, roots first. Every record occurs exactly once, under exactly
      the articles its references and its subject put above it, the depth limit permitting. */
  method Thread(records: seq<Record>, normalise: string -> (string, bool))
    returns (threads: seq<ThreadNode>, ghost stages: Stages)
    requires |records| <= USIZE_MAX
    ensures Explains(stages, records, normalise)
    ensures Faithful(threads, stages.grouped, stages.placed, |records|)
    ensures Noded(threads, stages.flat, stages.placed)
    ensures InRootOrder(threads, stages.grouped, Remaining(stages.grouped, stages.roots))
    ensures LenAll(threads) == |records|
    ensures ShapedAll(threads)
    ensures forall node :: node in threads ==> Within(node, 32)
    ensures TreesOldestFirst(threads) <==>
            !exists reply, other, opener ::
               Leapfrogged(TagsOf(stages.linked, stages.roots, records, normalise), reply, other, opener)
  {
    hide Acyclic, ChildrenPointBack, ParentsListChildren, Oldest, Spells, GroupedParents, GroupedTrees, Placed,
         TablesAgree, FlattenedParents, FlattenedChildren, UnderAny, LinkedRecords, NameOf, TagsOf, RootList, AllCaps,
         Leapfrogged, TreesOldestFirst, Noded, Remaining, InRootOrder;
    var arena := new Arena();
    InsertAll(arena, records);
    LinkAll(arena, records);
    ghost var linked, names, placed := arena.containers, arena.names, arena.byArticle;
    var roots := arena.Roots();
    RootsHoldRecords(linked, placed, roots);
    var kept := GroupBySubject(arena, roots, records, normalise, LinkedRecords(records));
    ghost var tags, grouped := TagsOf(linked, roots, records, normalise), arena.containers;
    ConsistentInjective(arena.containers, arena.byId, placed, names);
    AllRooted(linked, placed, roots, tags, grouped);
    ghost var capped := arena.ClampDepth(kept);
    stages := Stages(linked, names, placed, roots, grouped, capped, arena.containers);
    Finished(grouped, placed, kept, capped, arena.containers);
    CapsAtLevel(grouped, kept, capped);
    TreesOrdered(linked, placed, roots, tags, grouped, capped, arena.containers);
    threads := BuildAll(arena.containers, kept, 0);
    LengthsAddUp(threads, |records|);
  }

  lemma CapsAtLevel(cs: seq<Container>, roots: seq<nat>, capped: set<nat>)
    requires Acyclic(cs) && AllCaps(cs, roots, capped)
    ensures AtCapLevel(cs, capped)
  {
  }
}
