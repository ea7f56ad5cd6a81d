/** The arena the threading algorithm works in: containers held in a growing table and linked by
    index, with a table of message-ids and a table of records. */
module Arenas {
  import opened Options
  import opened Sequences
  import opened Forests
  import opened References
  import opened Clamping

  /** The parent links of `cs`, read through `names`, are exactly `links`. */
  ghost predicate Spells(cs: seq<Container>, names: seq<Name>, links: Links) {
    && |names| == |cs|
    && (forall x {:trigger cs[x].parent} :: 0 <= x < |cs| ==>
          match cs[x].parent
          case None => names[x] !in links
          case Some(p) => p < |cs| && names[x] in links && links[names[x]] == names[p])
    && (forall name :: name in links ==> name in names)
  }

  ghost predicate Injective(names: seq<Name>) {
    forall x, y :: 0 <= x < |names| && 0 <= y < |names| && names[x] == names[y] ==> x == y
  }

  /** Climbing the parent map is walking up the path. */
  lemma {:induction false} ClimbIsPath(cs: seq<Container>, names: seq<Name>, links: Links, x: nat, k: nat)
    requires Acyclic(cs) && |names| == |cs| && x < |cs|
    requires Spells(cs, names, links)
    ensures Climb(links, names[x], k) ==
            if k <= Depths(cs)[x] then Some(names[Path(cs, x)[Depths(cs)[x] - k]]) else None
    decreases k
  {
    if k > 0 && cs[x].parent.Some? {
      ClimbIsPath(cs, names, links, cs[x].parent.value, k - 1);
    }
  }

  lemma DescendsIsOnPath(cs: seq<Container>, names: seq<Name>, links: Links, x: nat, a: nat)
    requires Acyclic(cs) && |names| == |cs| && x < |cs| && a < |cs|
    requires Spells(cs, names, links) && Injective(names)
    ensures Descends(links, names[x], names[a]) <==> a in Path(cs, x)
  {
    if Descends(links, names[x], names[a]) {
      var k: nat :| Climb(links, names[x], k) == Some(names[a]);
      ClimbIsPath(cs, names, links, x, k);
      assert Path(cs, x)[Depths(cs)[x] - k] == a;
    }
    if a in Path(cs, x) {
      var j :| 0 <= j < |Path(cs, x)| && Path(cs, x)[j] == a;
      ClimbIsPath(cs, names, links, x, Depths(cs)[x] - j);
    }
  }

  /** The name table and the lookup table describe the same containers. */
  ghost predicate TablesAgree(cs: seq<Container>, byId: map<string, nat>, names: seq<Name>) {
    && |names| == |cs|
    && (forall id :: id in byId ==> byId[id] < |cs| && names[byId[id]] == Id(id))
    && (forall x :: 0 <= x < |names| ==>
          match names[x]
          case Id(id) => id in byId && byId[id] == x
          case Unclaimed(index) => cs[x].article == Some(index))
  }

  ghost predicate Consistent(cs: seq<Container>, byId: map<string, nat>, byArticle: seq<nat>, names: seq<Name>) {
    Forest(cs) && Placed(cs, byArticle) && TablesAgree(cs, byId, names)
  }

  lemma EmptyConsistent()
    ensures Consistent([], map[], [], [])
  {
    assert MeasuresDepth([], []);
  }

  lemma ConsistentInjective(cs: seq<Container>, byId: map<string, nat>, byArticle: seq<nat>, names: seq<Name>)
    requires Consistent(cs, byId, byArticle, names)
    ensures Injective(names)
  {
  }

  lemma ConsistentRanges(cs: seq<Container>, byId: map<string, nat>, byArticle: seq<nat>, names: seq<Name>)
    requires Consistent(cs, byId, byArticle, names)
    ensures |names| == |cs|
    ensures forall i :: 0 <= i < |byArticle| ==> byArticle[i] < |cs|
  {
  }

  /** A record in a container of its own, bearing no id. */
  lemma AddUnclaimed(cs: seq<Container>, byId: map<string, nat>, byArticle: seq<nat>, names: seq<Name>)
    requires Consistent(cs, byId, byArticle, names)
    ensures Consistent(Grown(cs, Some(|byArticle|)), byId, byArticle + [|cs|], names + [Unclaimed(|byArticle|)])
  {
    GrowKeepsForest(cs, Some(|byArticle|));
  }

  /** A record in a container of its own, bearing a new id. */
  lemma AddBearer(cs: seq<Container>, byId: map<string, nat>, byArticle: seq<nat>, names: seq<Name>, id: string)
    requires Consistent(cs, byId, byArticle, names) && id !in byId
    ensures Consistent(Grown(cs, Some(|byArticle|)), byId[id := |cs|], byArticle + [|cs|], names + [Id(id)])
  {
    GrowKeepsForest(cs, Some(|byArticle|));
    AddTables(cs, byId, names, Some(|byArticle|), id);
  }

  /** An empty container for an id that was only referred to. */
  lemma AddEmpty(cs: seq<Container>, byId: map<string, nat>, byArticle: seq<nat>, names: seq<Name>, id: string)
    requires Consistent(cs, byId, byArticle, names) && id !in byId
    ensures Consistent(Grown(cs, None), byId[id := |cs|], byArticle, names + [Id(id)])
  {
    GrowKeepsForest(cs, None);
    AddTables(cs, byId, names, None, id);
  }

  lemma AddTables(cs: seq<Container>, byId: map<string, nat>, names: seq<Name>, article: Option<nat>, id: string)
    requires TablesAgree(cs, byId, names) && id !in byId
    ensures TablesAgree(Grown(cs, article), byId[id := |cs|], names + [Id(id)])
  {
  }

  lemma FillWaiting(cs: seq<Container>, byId: map<string, nat>, byArticle: seq<nat>, names: seq<Name>, x: nat)
    requires Consistent(cs, byId, byArticle, names) && x < |cs| && cs[x].article.None?
    ensures Consistent(cs[x := cs[x].(article := Some(|byArticle|))], byId, byArticle + [x], names)
  {
    FillKeepsForest(cs, x, |byArticle|);
  }

  lemma FillKeepsForest(cs: seq<Container>, x: nat, index: nat)
    requires Forest(cs) && x < |cs|
    ensures Forest(cs[x := cs[x].(article := Some(index))])
  {
    var ds := cs[x := cs[x].(article := Some(index))];
    assert MeasuresDepth(ds, Depths(cs));
    forall c | 0 <= c < |ds| && ds[c].parent.Some?
      ensures ds[c].parent.value < |ds| && c in ds[ds[c].parent.value].children
    {
      assert cs[c].parent == ds[c].parent;
    }
  }

  /** A new, unlinked container leaves the spelled links alone. */
  lemma GrowSpells(cs: seq<Container>, names: seq<Name>, links: Links, article: Option<nat>, name: Name)
    requires |names| == |cs| && Spells(cs, names, links) && name !in names
    ensures Spells(Grown(cs, article), names + [name], links)
  {
  }

  /** What one link attempt does to the containers. */
  ghost function AfterAttempt(cs: seq<Container>, child: nat, parent: nat): seq<Container>
    requires Acyclic(cs) && child < |cs| && parent < |cs|
  {
    if child == parent || cs[child].parent.Some? || child in Path(cs, parent) then cs
    else Linked(cs, child, parent)
  }

  /** An attempt on containers is the same attempt on the parent map they spell. */
  lemma AttemptSpelled(cs: seq<Container>, byId: map<string, nat>, byArticle: seq<nat>, names: seq<Name>,
                       links: Links, child: nat, parent: nat)
    requires Consistent(cs, byId, byArticle, names) && Spells(cs, names, links)
    requires child < |cs| && parent < |cs|
    ensures Consistent(AfterAttempt(cs, child, parent), byId, byArticle, names)
    ensures Spells(AfterAttempt(cs, child, parent), names, Attempt(links, names[child], names[parent]))
  {
    ConsistentInjective(cs, byId, byArticle, names);
    DescendsIsOnPath(cs, names, links, parent, child);
    if child != parent && cs[child].parent.None? && child !in Path(cs, parent) {
      LinkConsistent(cs, byId, byArticle, names, child, parent);
      LinkSpelled(cs, names, links, child, parent);
    }
  }

  lemma LinkConsistent(cs: seq<Container>, byId: map<string, nat>, byArticle: seq<nat>, names: seq<Name>,
                       child: nat, parent: nat)
    requires Consistent(cs, byId, byArticle, names)
    requires child < |cs| && parent < |cs| && child != parent
    requires cs[child].parent.None? && child !in Path(cs, parent)
    ensures Consistent(Linked(cs, child, parent), byId, byArticle, names)
  {
    LinkKeepsForest(cs, child, parent);
    var ds := Linked(cs, child, parent);
    assert forall x :: 0 <= x < |cs| ==> ds[x].article == cs[x].article;
  }

  lemma LinkSpelled(cs: seq<Container>, names: seq<Name>, links: Links, child: nat, parent: nat)
    requires |names| == |cs| && Injective(names) && Spells(cs, names, links)
    requires child < |cs| && parent < |cs| && child != parent
    ensures Spells(Linked(cs, child, parent), names, links[names[child] := names[parent]])
  {
  }

  /** The sort key of a container: an absent oldest article sorts before every present one. */
  ghost function OldestKey(cs: seq<Container>, x: nat): int
    requires Acyclic(cs)
  {
    if Oldest(cs, x).Some? then Oldest(cs, x).value else -1
  }

  lemma RootsSorted(cs: seq<Container>, placed: seq<nat>, found: seq<nat>, roots: seq<nat>)
    requires Forest(cs) && Placed(cs, placed)
    requires forall k :: 0 <= k < |found| ==> IsRoot(cs, found[k])
    requires forall x :: 0 <= x < |cs| && IsRoot(cs, x) ==> x in found
    requires Distinct(found) && multiset(roots) == multiset(found)
    requires forall i, j :: 0 <= i < j < |roots| && roots[i] < |cs| && roots[j] < |cs| ==>
               OldestKey(cs, roots[i]) <= OldestKey(cs, roots[j])
    ensures RootList(cs, roots)
  {
    PermutationMembers(found, roots);
    forall k | 0 <= k < |roots| ensures IsRoot(cs, roots[k]) {
      assert roots[k] in roots;
    }
    forall i, j | 0 <= i < j < |roots|
      ensures Oldest(cs, roots[i]).value < Oldest(cs, roots[j]).value
    {
      RootsApart(cs, placed, roots[i], roots[j]);
    }
  }

  class Arena {
    var containers: seq<Container>
    var byId: map<string, nat>
    var byArticle: seq<nat>
    ghost var names: seq<Name>

    ghost predicate Valid()
      reads this
    {
      Consistent(containers, byId, byArticle, names)
    }

    constructor ()
      ensures Valid()
      ensures containers == [] && byId == map[] && byArticle == [] && names == []
    {
      containers, byId, byArticle, names := [], map[], [], [];
      EmptyConsistent();
    }

    function ArticleOf(id: nat): Option<nat>
      reads this
    {
      if id < |containers| then containers[id].article else None
    }

    function ParentOf(id: nat): Option<nat>
      reads this
    {
      if id < |containers| then containers[id].parent else None
    }

    method NewContainer(article: Option<nat>) returns (id: nat)
      modifies this`containers
      ensures id == old(|containers|) && containers == Grown(old(containers), article)
    {
      containers := containers + [Container(article, None, [])];
      return |containers| - 1;
    }

    /** Adds a container for one record, or fills the one that was waiting for it. Links are
        untouched. */
    method Insert(index: nat, record: Record)
      requires Valid() && index == |byArticle|
      modifies this
      ensures Valid()
      ensures |byArticle| == index + 1 && byArticle == old(byArticle) + [byArticle[index]]
      ensures
        var waiting := record.messageId.Some? && record.messageId.value in old(byId)
                       && old(containers)[old(byId)[record.messageId.value]].article.None?;
        if waiting then
          && var x := old(byId)[record.messageId.value];
          && byArticle[index] == x && byId == old(byId) && names == old(names)
          && containers == old(containers)[x := old(containers)[x].(article := Some(index))]
        else
          && byArticle[index] == |old(containers)|
          && containers == Grown(old(containers), Some(index))
          && if record.messageId.Some? && record.messageId.value !in old(byId) then
               byId == old(byId)[record.messageId.value := |old(containers)|]
               && names == old(names) + [Id(record.messageId.value)]
             else
               byId == old(byId) && names == old(names) + [Unclaimed(index)]
    {
      if record.messageId.None? {
        AddUnclaimed(containers, byId, byArticle, names);
        var container := NewContainer(Some(index));
        byArticle := byArticle + [container];
        names := names + [Unclaimed(index)];
        return;
      }
      var id := record.messageId.value;
      if id in byId && ArticleOf(byId[id]).None? {
        var existing := byId[id];
        FillWaiting(containers, byId, byArticle, names, existing);
        containers := containers[existing := containers[existing].(article := Some(index))];
        byArticle := byArticle + [existing];
      } else if id in byId {
        AddUnclaimed(containers, byId, byArticle, names);
        var container := NewContainer(Some(index));
        byArticle := byArticle + [container];
        names := names + [Unclaimed(index)];
      } else {
        AddBearer(containers, byId, byArticle, names, id);
        var container := NewContainer(Some(index));
        byId := byId[id := container];
        byArticle := byArticle + [container];
        names := names + [Id(id)];
      }
    }

    /** The container bearing a message-id, created empty if the id was only referred to. */
    method ContainerForId(id: string, ghost links: Links) returns (container: nat)
      requires Valid() && Spells(containers, names, links)
      modifies this
      ensures Valid() && Spells(containers, names, links)
      ensures byArticle == old(byArticle)
      ensures container < |containers| && names[container] == Id(id)
      ensures if id in old(byId) then containers == old(containers) && names == old(names)
              else containers == Grown(old(containers), None) && names == old(names) + [Id(id)]
    {
      if id in byId {
        return byId[id];
      }
      AddEmpty(containers, byId, byArticle, names, id);
      GrowSpells(containers, names, links, None, Id(id));
      container := NewContainer(None);
      byId := byId[id := container];
      names := names + [Id(id)];
    }

    /** Whether `candidate` is `id` or one of its ancestors. The step count never runs out. */
    method IsAncestor(candidate: nat, id: nat) returns (answer: bool)
      requires Acyclic(containers) && id < |containers|
      ensures answer <==> candidate in Path(containers, id)
    {
      var current := Some(id);
      PathBounded(containers, id);
      for step := 0 to |containers| + 1
        invariant match current
                  case None => candidate !in Path(containers, id) && step <= Depths(containers)[id] + 1
                  case Some(node) =>
                    && node < |containers|
                    && step + Depths(containers)[node] == Depths(containers)[id]
                    && (candidate in Path(containers, id) <==> candidate in Path(containers, node))
      {
        match current
        case Some(node) =>
          if node == candidate {
            return true;
          }
          current := ParentOf(node);
        case None =>
          return false;
      }
      return true;
    }

    /** Makes `parent` the parent of `child`, unless `child` already has one or that would close
        a loop. */
    method SetParent(child: nat, parent: nat, ghost links: Links)
      requires Valid() && Spells(containers, names, links)
      requires child < |containers| && parent < |containers|
      modifies this`containers
      ensures Valid()
      ensures containers == AfterAttempt(old(containers), child, parent)
      ensures Spells(containers, names, Attempt(links, names[child], names[parent]))
    {
      AttemptSpelled(containers, byId, byArticle, names, links, child, parent);
      if child == parent || ParentOf(child).Some? {
        return;
      }
      var looped := IsAncestor(child, parent);
      if looped {
        return;
      }
      containers := containers[child := containers[child].(parent := Some(parent))];
      containers := containers[parent := containers[parent].(children := containers[parent].children + [child])];
    }

    /** One step along a chain of references: the container for the next id, linked under the
        one before it. */
    method LinkNext(previous: Option<nat>, reference: string, ghost links: Links) returns (current: nat)
      requires Valid() && Spells(containers, names, links)
      requires previous.Some? ==> previous.value < |containers|
      modifies this
      ensures Valid() && byArticle == old(byArticle) && old(names) <= names
      ensures current < |names| && names[current] == Id(reference)
      ensures Spells(containers, names,
                     if previous.None? then links
                     else Attempt(links, Id(reference), old(names)[previous.value]))
    {
      current := ContainerForId(reference, links);
      if previous.Some? {
        SetParent(current, previous.value, links);
      }
    }

    /** Links a run of references to each other, oldest first; the nearest one is returned. */
    method LinkRun(references: seq<string>, ghost links: Links, ghost last: Name) returns (previous: Option<nat>)
      requires Valid() && Spells(containers, names, links)
      modifies this
      ensures Valid() && byArticle == old(byArticle) && old(names) <= names
      ensures previous.None? <==> references == []
      ensures previous.Some? ==>
                previous.value < |containers| && names[previous.value] == Id(references[|references| - 1])
      ensures Spells(containers, names,
                     if references == [] then links
                     else LinkPairs(links, Ids(references) + [last], |references| - 1))
    {
      hide Consistent, Spells;
      ghost var chain := Ids(references) + [last];
      ghost var sofar := links;
      previous := None;
      for k := 0 to |references|
        invariant Valid() && byArticle == old(byArticle) && old(names) <= names
        invariant match previous
                  case None => k == 0 && sofar == links
                  case Some(x) =>
                    k > 0 && x < |names| && names[x] == chain[k - 1] && sofar == LinkPairs(links, chain, k - 1)
        invariant Spells(containers, names, sofar)
      {
        ConsistentRanges(containers, byId, byArticle, names);
        var current := LinkNext(previous, references[k], sofar);
        if previous.Some? {
          sofar := Attempt(sofar, chain[k], chain[k - 1]);
        }
        previous := Some(current);
      }
      ConsistentRanges(containers, byId, byArticle, names);
    }

    /** Links an article to its references, and its references to each other. */
    method LinkReferences(index: nat, record: Record, ghost links: Links)
      requires Valid() && Spells(containers, names, links) && index < |byArticle|
      modifies this
      ensures Valid() && byArticle == old(byArticle) && old(names) <= names
      ensures Spells(containers, names,
                     LinkChain(links, Ids(NearReferences(record)) + [old(names)[old(byArticle)[index]]]))
    {
      hide Consistent, Spells, Attempt;
      ConsistentRanges(containers, byId, byArticle, names);
      var child := byArticle[index];
      var references := record.references[if |record.references| > MAX_REFERENCES
                                          then |record.references| - MAX_REFERENCES else 0..];
      assert references == NearReferences(record);
      var previous := LinkRun(references, links, names[child]);
      ConsistentRanges(containers, byId, byArticle, names);
      if previous.Some? {
        SetParent(child, previous.value, LinkPairs(links, Ids(references) + [names[child]], |references| - 1));
      }
    }

    /** The lowest record index anywhere below `id`. The step count never runs out. */
    method FirstArticle(id: nat) returns (best: Option<nat>)
      requires Acyclic(containers) && ChildrenPointBack(containers) && id < |containers|
      ensures best == Oldest(containers, id)
    {
      hide ChildrenPointBack, Acyclic, Holds, Oldest, Walk, Visited, LowestSeen;
      best := ArticleOf(id);
      var stack := [id];
      var steps := 0;
      ghost var done: set<nat> := {};
      WalkStart(containers, id);
      LowestStart(containers, id);
      while stack != []
        invariant Walk(containers, id, done, stack)
        invariant LowestSeen(containers, id, done, best)
        invariant done <= Below(|containers|) && steps == |done|
        decreases |containers| - |done|
      {
        WalkStep(containers, id, done, stack);
        var current := stack[|stack| - 1];
        LowestStep(containers, id, done, best, current);
        stack := stack[..|stack| - 1];
        steps := steps + 1;
        SubsetCardinality(done + {current}, Below(|containers|));
        if steps > |containers| + 1 {
          break;
        }
        var container := containers[current];
        if container.article.Some? {
          var article := container.article.value;
          best := Some(if best.Some? && best.value <= article then best.value else article);
        }
        stack := stack + container.children;
        done := done + {current};
      }
      WalkFindsOldest(containers, id, done, best);
    }

    /** Containers in the order of their oldest article; those with none come first. */
    method SortByFirstArticle(nodes: seq<nat>) returns (sorted: seq<nat>)
      requires Acyclic(containers) && ChildrenPointBack(containers)
      requires forall x :: x in nodes ==> x < |containers|
      ensures multiset(sorted) == multiset(nodes)
      ensures forall i, j :: 0 <= i < j < |sorted| && sorted[i] < |containers| && sorted[j] < |containers| ==>
                OldestKey(containers, sorted[i]) <= OldestKey(containers, sorted[j])
    {
      hide Oldest, Acyclic, ChildrenPointBack;
      var firsts: map<nat, int> := map[];
      for k := 0 to |nodes|
        invariant forall x :: x in firsts ==> x < |containers| && firsts[x] == OldestKey(containers, x)
        invariant forall i :: 0 <= i < k ==> nodes[i] in firsts
      {
        assert nodes[k] in nodes;
        var first := FirstArticle(nodes[k]);
        firsts := firsts[nodes[k] := if first.Some? then first.value else -1];
      }
      var key := (x: nat) => if x in firsts then firsts[x] else -1;
      var leq := (x: nat, y: nat) => key(x) <= key(y);
      sorted := SortBy(nodes, leq);
      SortKeeps(nodes, leq);
      PermutationMembers(nodes, sorted);
      forall i, j | 0 <= i < j < |sorted| && sorted[i] < |containers| && sorted[j] < |containers|
        ensures OldestKey(containers, sorted[i]) <= OldestKey(containers, sorted[j])
      {
        assert sorted[i] in sorted && sorted[j] in sorted;
        assert leq(sorted[i], sorted[j]);
      }
    }

    /** The containers with no parent that hold an article, in the order of their oldest. */
    method Roots() returns (roots: seq<nat>)
      requires Valid()
      ensures RootList(containers, roots)
    {
      hide Oldest, Holds, Path, Placed, TablesAgree;
      var found: seq<nat> := [];
      for id := 0 to |containers|
        invariant forall k :: 0 <= k < |found| ==> found[k] < id && IsRoot(containers, found[k])
        invariant forall x :: 0 <= x < id && IsRoot(containers, x) ==> x in found
        invariant Distinct(found)
      {
        var first := FirstArticle(id);
        if ParentOf(id).None? && first.Some? {
          found := found + [id];
        }
      }
      roots := SortByFirstArticle(found);
      RootsSorted(containers, byArticle, found, roots);
    }

    /** Makes everything below `id`, which is at the cap level, a direct child of it. `cs` are
        the links before any flattening, `capped` the caps dealt with so far. */
    method FlattenBelow(id: nat, seen: seq<bool>, ghost cs: seq<Container>, ghost capped: set<nat>)
      returns (marked: seq<bool>)
      requires Forest(cs) && AtCapLevel(cs, capped) && Flattened(cs, capped, containers)
      requires id < |cs| && Depths(cs)[id] == CAP_LEVEL && id !in capped
      requires |seen| == |cs| && forall x: nat :: UnderCap(cs, id, x) ==> !seen[x]
      modifies this`containers
      ensures Flattened(cs, capped + {id}, containers) && AtCapLevel(cs, capped + {id})
      ensures |containers| == |cs| && |marked| == |seen|
      ensures forall x :: 0 <= x < |seen| ==> (marked[x] <==> seen[x] || UnderCap(cs, id, x))
    {
      hide Walk, Forest, Flattened, Flattening, UnderCap, AtCapLevel;
      ghost var ds := containers;
      FlatteningStart(cs, capped, ds, id);
      ghost var done: set<nat> := {id};
      marked := seen;
      var descendants: seq<nat> := [];
      var stack := containers[id].children;
      while stack != []
        invariant |containers| == |cs| && |marked| == |cs|
        invariant id in done && Walk(cs, id, done, stack)
        invariant Flattening(cs, ds, id, done, containers)
        invariant forall x :: x in descendants ==> x < |cs|
        invariant Distinct(descendants) && forall x :: x in descendants <==> x in done && x != id
        invariant forall x :: 0 <= x < |cs| ==> (marked[x] <==> seen[x] || (x in done && x != id))
        decreases Below(|cs|) - done
      {
        FlatteningNext(cs, capped, ds, id, done, stack, containers);
        WalkStep(cs, id, done, stack);
        var node := stack[|stack| - 1];
        stack := stack[..|stack| - 1];
        if !marked[node] {
          marked := marked[node := true];
          var grandchildren := containers[node].children;
          FlatteningStep(cs, ds, id, done, containers, node);
          containers := containers[node := containers[node].(children := [], parent := Some(id))];
          stack := stack + grandchildren;
          descendants := descendants + [node];
          done := done + {node};
        }
      }
      FlatteningSound(cs, capped, ds, id, done, containers);
      forall x | 0 <= x < |cs| ensures x in done && x != id <==> UnderCap(cs, id, x) {
        WalkedUnderCap(cs, id, done, x);
      }
      var sorted := SortByFirstArticle(descendants);
      PermutationMembers(descendants, sorted);
      FlatteningDone(cs, capped, ds, id, done, containers, sorted);
      containers := containers[id := containers[id].(children := sorted)];
    }

    /** Flattens anything nested deeper than `MAX_DEPTH` onto the deepest ancestor the limit
        allows: breadth first from the roots down to the cap level. */
    method ClampDepth(roots: seq<nat>) returns (ghost capped: set<nat>)
      requires Forest(containers)
      requires forall r :: r in roots ==> r < |containers| && containers[r].parent.None?
      modifies this`containers
      ensures AllCaps(old(containers), roots, capped)
      ensures Flattened(old(containers), capped, containers)
    {
      hide Forest, Flattened, Flattening, UnderCap, UnderAny, AtCapLevel, Sweep, Marks, AllCaps, ChildrenPointBack,
        Acyclic, Path, Below;
      ghost var cs := containers;
      ghost var popped: set<nat> := {};
      capped := {};
      var seen := seq(|containers|, _ => false);
      var queue := Entries(roots, 0);
      NothingMarked(cs, seen);
      SweepStart(cs, roots);
      while queue != []
        invariant |containers| == |seen| == |cs|
        invariant Sweep(cs, roots, capped, popped, queue) && Marks(cs, capped, popped, seen)
        invariant AtCapLevel(cs, capped) && Flattened(cs, capped, containers)
        invariant popped <= Below(|cs|)
        decreases Below(|cs|) - popped, |queue|
      {
        MarkedIsPopped(cs, roots, capped, popped, queue, seen);
        var (id, depth) := queue[0];
        if seen[id] {
          SweepSkip(cs, roots, capped, popped, queue);
          queue := queue[1..];
          continue;
        }
        SweepPop(cs, roots, capped, popped, queue);
        MarkPopped(cs, capped, popped, seen, id);
        BelowMember(|cs|, id);
        queue := queue[1..];
        seen := seen[id := true];
        if depth + 1 < MAX_DEPTH {
          OwnChildren(cs, capped, containers, id);
          queue := queue + Entries(containers[id].children, depth + 1);
          popped := popped + {id};
        } else {
          CapNotUnderItself(cs, id);
          assert forall x: nat :: UnderCap(cs, id, x) ==> x < |seen| && !seen[x];
          var marked := FlattenBelow(id, seen, cs, capped);
          MarkCapped(cs, capped, popped + {id}, seen, id, marked);
          seen := marked;
          popped := popped + {id};
          capped := capped + {id};
        }
      }
      SweepCaps(cs, roots, capped, popped);
    }
  }
}
