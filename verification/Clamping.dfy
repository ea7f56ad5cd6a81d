/** The depth cap: everything nested deeper than the limit is moved up to the deepest ancestor
    the limit allows. `CAP_LEVEL` is the level of that ancestor. */
module Clamping {
  import opened Options
  import opened Sequences
  import opened Forests

  const MAX_DEPTH: nat := 32
  const CAP_LEVEL: nat := MAX_DEPTH - 1

  /** `x` lies strictly below the container `cap`, which is at the cap level. */
  ghost predicate UnderCap(cs: seq<Container>, cap: nat, x: nat)
    requires Acyclic(cs)
  {
    x < |cs| && Depths(cs)[x] > CAP_LEVEL && Path(cs, x)[CAP_LEVEL] == cap
  }

  ghost predicate UnderAny(cs: seq<Container>, capped: set<nat>, x: nat)
    requires Acyclic(cs) && x < |cs|
  {
    Depths(cs)[x] > CAP_LEVEL && Path(cs, x)[CAP_LEVEL] in capped
  }

  ghost predicate AtCapLevel(cs: seq<Container>, capped: set<nat>)
    requires Acyclic(cs)
  {
    forall cap :: cap in capped ==> cap < |cs| && Depths(cs)[cap] == CAP_LEVEL
  }

  ghost predicate FlattenedParents(cs: seq<Container>, capped: set<nat>, ds: seq<Container>)
    requires Acyclic(cs)
  {
    && |ds| == |cs|
    && (forall x {:trigger ds[x].parent} :: 0 <= x < |cs| ==>
          ds[x].parent == if UnderAny(cs, capped, x) then Some(Path(cs, x)[CAP_LEVEL]) else cs[x].parent)
  }

  /** `ds` is `cs` with everything below the containers of `capped` flattened onto them. */
  ghost predicate Flattened(cs: seq<Container>, capped: set<nat>, ds: seq<Container>)
    requires Acyclic(cs)
  {
    && FlattenedParents(cs, capped, ds)
    && (forall x :: 0 <= x < |cs| ==> ds[x].article == cs[x].article)
    && (forall x {:trigger ds[x].children} :: 0 <= x < |cs| ==>
          FlattenedChildren(cs, capped, x, ds[x].children))
  }

  ghost predicate FlattenedChildren(cs: seq<Container>, capped: set<nat>, x: nat, children: seq<nat>)
    requires Acyclic(cs) && x < |cs|
  {
    if UnderAny(cs, capped, x) then children == []
    else if x in capped then Distinct(children) && forall c: nat :: c in children <==> UnderCap(cs, x, c)
    else children == cs[x].children
  }

  /** The state in the middle of flattening one cap: what has been visited below it hangs off it
      by its parent link, and has given up its children. */
  ghost predicate Flattening(cs: seq<Container>, ds: seq<Container>, cap: nat, done: set<nat>, es: seq<Container>) {
    && |es| == |ds| == |cs| && cap < |cs|
    && (forall x :: 0 <= x < |cs| && (x !in done || x == cap) ==> es[x] == ds[x])
    && (forall x :: 0 <= x < |cs| && x in done && x != cap ==>
          es[x] == Container(ds[x].article, Some(cap), []))
  }

  lemma FlattenedAcyclic(cs: seq<Container>, capped: set<nat>, ds: seq<Container>)
    requires Acyclic(cs) && AtCapLevel(cs, capped) && FlattenedParents(cs, capped, ds)
    ensures Acyclic(ds)
  {
    var d := Depths(cs);
    var e := seq(|cs|, x requires 0 <= x < |cs| => if UnderAny(cs, capped, x) then CAP_LEVEL + 1 else d[x]);
    forall x | 0 <= x < |ds|
      ensures match ds[x].parent
              case None => e[x] == 0
              case Some(p) => p < |ds| && e[x] == e[p] + 1
    {
      if !UnderAny(cs, capped, x) && cs[x].parent.Some? {
        var p := cs[x].parent.value;
        assert Path(cs, x) == Path(cs, p) + [x];
        assert d[x] == d[p] + 1;
        assert d[p] > CAP_LEVEL ==> Path(cs, p)[CAP_LEVEL] == Path(cs, x)[CAP_LEVEL];
      } else if UnderAny(cs, capped, x) {
        assert d[Path(cs, x)[CAP_LEVEL]] == CAP_LEVEL;
      }
    }
    assert MeasuresDepth(ds, e);
  }

  lemma FlattenedForest(cs: seq<Container>, capped: set<nat>, ds: seq<Container>)
    requires Forest(cs) && AtCapLevel(cs, capped) && Flattened(cs, capped, ds)
    ensures Forest(ds)
  {
    FlattenedAcyclic(cs, capped, ds);
    forall p, k | 0 <= p < |ds| && 0 <= k < |ds[p].children|
      ensures ds[p].children[k] < |ds| && ds[ds[p].children[k]].parent == Some(p)
    {
      var c := ds[p].children[k];
      assert c in ds[p].children;
      assert !UnderAny(cs, capped, p);
      if p !in capped {
        assert cs[c].parent == Some(p);
        UnderStays(cs, capped, p, c);
      }
    }
    forall c | 0 <= c < |ds| && ds[c].parent.Some?
      ensures ds[c].parent.value < |ds| && c in ds[ds[c].parent.value].children
    {
      var p := ds[c].parent.value;
      if UnderAny(cs, capped, c) {
        assert UnderCap(cs, p, c);
      } else {
        assert cs[c].parent == Some(p) && c in cs[p].children;
        UnderStays(cs, capped, p, c);
      }
    }
  }

  /** A child is under a cap exactly when its parent is, or is the cap. */
  lemma UnderStays(cs: seq<Container>, capped: set<nat>, p: nat, c: nat)
    requires Acyclic(cs) && AtCapLevel(cs, capped) && p < |cs| && c < |cs| && cs[c].parent == Some(p)
    ensures UnderAny(cs, capped, c) <==> UnderAny(cs, capped, p) || p in capped
  {
  }

  /** Every path keeps its first containers, and nothing is deeper than the limit. */
  lemma {:induction false} FlattenedPaths(cs: seq<Container>, capped: set<nat>, ds: seq<Container>, x: nat)
    requires Forest(cs) && AtCapLevel(cs, capped) && Flattened(cs, capped, ds) && Forest(ds)
    requires x < |cs|
    requires Depths(cs)[x] >= CAP_LEVEL ==> Path(cs, x)[CAP_LEVEL] in capped
    ensures Path(ds, x) == if Depths(cs)[x] <= CAP_LEVEL then Path(cs, x) else Path(cs, x)[..CAP_LEVEL + 1] + [x]
    decreases Depths(cs)[x]
  {
    if Depths(cs)[x] > CAP_LEVEL {
      var cap := Path(cs, x)[CAP_LEVEL];
      PathPrefix(cs, x, CAP_LEVEL);
      FlattenedPaths(cs, capped, ds, cap);
      assert ds[x].parent == Some(cap);
    } else {
      assert !UnderAny(cs, capped, x) && ds[x].parent == cs[x].parent;
      if cs[x].parent.Some? {
        FlattenedPaths(cs, capped, ds, cs[x].parent.value);
      }
    }
  }

  // ----- one cap at a time -----

  lemma CapHolds(cs: seq<Container>, cap: nat, x: nat)
    requires Forest(cs) && cap < |cs| && Depths(cs)[cap] == CAP_LEVEL && x < |cs|
    ensures Holds(cs, cap, x) <==> x == cap || UnderCap(cs, cap, x)
  {
    HoldsIsOnPath(cs, cap, x);
    if cap in Path(cs, x) {
      OnPath(cs, cap, x);
    }
  }

  /** What has been visited below the cap, once nothing is left to visit. */
  lemma WalkedUnderCap(cs: seq<Container>, cap: nat, done: set<nat>, x: nat)
    requires Forest(cs) && cap < |cs| && Depths(cs)[cap] == CAP_LEVEL
    requires Walk(cs, cap, done, [])
    ensures x in done && x != cap <==> UnderCap(cs, cap, x)
  {
    if x < |cs| {
      WalkEnd(cs, cap, done, x);
      CapHolds(cs, cap, x);
    } else {
      assert x in done ==> Visited(cs, cap, done, x);
    }
  }

  lemma FlatteningParents(cs: seq<Container>, capped: set<nat>, ds: seq<Container>, cap: nat,
                          done: set<nat>, es: seq<Container>)
    requires Forest(cs) && AtCapLevel(cs, capped) && FlattenedParents(cs, capped, ds)
    requires cap < |cs| && Depths(cs)[cap] == CAP_LEVEL && cap !in capped
    requires Walk(cs, cap, done, []) && Flattening(cs, ds, cap, done, es)
    ensures FlattenedParents(cs, capped + {cap}, es)
  {
    forall x | 0 <= x < |cs|
      ensures es[x].parent == if UnderAny(cs, capped + {cap}, x) then Some(Path(cs, x)[CAP_LEVEL]) else cs[x].parent
    {
      WalkedUnderCap(cs, cap, done, x);
      assert ds[x].parent == if UnderAny(cs, capped, x) then Some(Path(cs, x)[CAP_LEVEL]) else cs[x].parent;
    }
  }

  /** In the middle of a flattening the links are still sound enough to walk down. */
  lemma FlatteningSound(cs: seq<Container>, capped: set<nat>, ds: seq<Container>, cap: nat,
                        done: set<nat>, es: seq<Container>)
    requires Forest(cs) && AtCapLevel(cs, capped) && Flattened(cs, capped, ds)
    requires cap < |cs| && Depths(cs)[cap] == CAP_LEVEL && cap !in capped
    requires Walk(cs, cap, done, []) && Flattening(cs, ds, cap, done, es)
    ensures Acyclic(es) && ChildrenPointBack(es)
  {
    hide Acyclic, Walk, FlattenedParents, FlattenedChildren, Path, ParentsListChildren, UnderAny, UnderCap;
    FlatteningParents(cs, capped, ds, cap, done, es);
    FlattenedAcyclic(cs, capped + {cap}, es);
    FlattenedForest(cs, capped, ds);
    forall p, k | 0 <= p < |es| && 0 <= k < |es[p].children|
      ensures es[p].children[k] < |es| && es[es[p].children[k]].parent == Some(p)
    {
      SoundChild(cs, capped, ds, cap, done, es, p, k);
    }
  }

  lemma SoundChild(cs: seq<Container>, capped: set<nat>, ds: seq<Container>, cap: nat,
                   done: set<nat>, es: seq<Container>, p: nat, k: nat)
    requires Forest(cs) && FlattenedParents(cs, capped, ds) && ChildrenPointBack(ds)
    requires cap < |cs| && Depths(cs)[cap] == CAP_LEVEL && cap !in capped && AtCapLevel(cs, capped)
    requires Walk(cs, cap, done, []) && Flattening(cs, ds, cap, done, es)
    requires p < |es| && k < |es[p].children|
    ensures es[p].children[k] < |es| && es[es[p].children[k]].parent == Some(p)
  {
    hide Acyclic, Walk, ParentsListChildren;
    var c := es[p].children[k];
    assert es[p] == ds[p] && ds[p].children[k] == c && ds[c].parent == Some(p);
    if c in done && c != cap {
      WalkedUnderCap(cs, cap, done, c);
      WalkedUnderCap(cs, cap, done, p);
      assert cs[c].parent == Some(p);
      UnderStays(cs, {cap}, p, c);
    }
  }

  /** Handing the visited containers to the cap finishes it. */
  lemma FlatteningDone(cs: seq<Container>, capped: set<nat>, ds: seq<Container>, cap: nat,
                       done: set<nat>, es: seq<Container>, moved: seq<nat>)
    requires Forest(cs) && AtCapLevel(cs, capped) && Flattened(cs, capped, ds)
    requires cap < |cs| && Depths(cs)[cap] == CAP_LEVEL && cap !in capped
    requires Walk(cs, cap, done, []) && Flattening(cs, ds, cap, done, es)
    requires Distinct(moved) && forall x :: x in moved <==> x in done && x != cap
    ensures Flattened(cs, capped + {cap}, es[cap := es[cap].(children := moved)])
    ensures AtCapLevel(cs, capped + {cap})
  {
    hide Walk, Forest, UnderAny, FlattenedChildren;
    FlatteningParents(cs, capped, ds, cap, done, es);
    var fs := es[cap := es[cap].(children := moved)];
    forall x | 0 <= x < |cs| ensures FlattenedChildren(cs, capped + {cap}, x, fs[x].children) {
      FlatteningChildren(cs, capped, ds, cap, done, es, moved, x);
    }
  }

  lemma FlatteningChildren(cs: seq<Container>, capped: set<nat>, ds: seq<Container>, cap: nat,
                           done: set<nat>, es: seq<Container>, moved: seq<nat>, x: nat)
    requires Forest(cs) && AtCapLevel(cs, capped) && Flattened(cs, capped, ds)
    requires cap < |cs| && Depths(cs)[cap] == CAP_LEVEL && cap !in capped
    requires Walk(cs, cap, done, []) && Flattening(cs, ds, cap, done, es)
    requires Distinct(moved) && forall x :: x in moved <==> x in done && x != cap
    requires x < |cs|
    ensures FlattenedChildren(cs, capped + {cap}, x, if x == cap then moved else es[x].children)
  {
    hide Walk, Forest, Distinct;
    forall c: nat ensures c in done && c != cap <==> UnderCap(cs, cap, c) {
      WalkedUnderCap(cs, cap, done, c);
    }
    assert FlattenedChildren(cs, capped, x, ds[x].children);
  }

  lemma FlatteningStart(cs: seq<Container>, capped: set<nat>, ds: seq<Container>, cap: nat)
    requires Forest(cs) && AtCapLevel(cs, capped) && Flattened(cs, capped, ds)
    requires cap < |cs| && Depths(cs)[cap] == CAP_LEVEL && cap !in capped
    ensures |ds| == |cs|
    ensures Walk(cs, cap, {cap}, ds[cap].children)
    ensures Flattening(cs, ds, cap, {cap}, ds)
  {
  }

  /** The next container to visit lies under the cap and still has its own children. */
  lemma FlatteningNext(cs: seq<Container>, capped: set<nat>, ds: seq<Container>, cap: nat,
                       done: set<nat>, stack: seq<nat>, es: seq<Container>)
    requires Forest(cs) && AtCapLevel(cs, capped) && Flattened(cs, capped, ds)
    requires cap < |cs| && Depths(cs)[cap] == CAP_LEVEL && cap !in capped && cap in done
    requires Walk(cs, cap, done, stack) && stack != [] && Flattening(cs, ds, cap, done, es)
    ensures ChildrenPointBack(cs)
    ensures var node := stack[|stack| - 1];
            && node < |cs| && node != cap && node !in done && UnderCap(cs, cap, node)
            && es[node].children == cs[node].children && es[node] == ds[node]
  {
    var node := stack[|stack| - 1];
    assert node in stack && Visited(cs, cap, done, node);
    CapHolds(cs, cap, node);
    assert FlattenedChildren(cs, capped, node, ds[node].children);
  }

  lemma FlatteningStep(cs: seq<Container>, ds: seq<Container>, cap: nat, done: set<nat>, es: seq<Container>, node: nat)
    requires Flattening(cs, ds, cap, done, es) && node < |cs| && node !in done && node != cap
    ensures Flattening(cs, ds, cap, done + {node}, es[node := es[node].(children := [], parent := Some(cap))])
  {
  }

  // ----- the breadth-first sweep that finds the caps -----

  ghost predicate Rooted(cs: seq<Container>, roots: seq<nat>, x: nat)
    requires Acyclic(cs)
  {
    x < |cs| && Path(cs, x)[0] in roots
  }

  /** `popped` have left the queue, `queue` still waits; `capped` are the caps among the former. */
  ghost predicate Sweep(cs: seq<Container>, roots: seq<nat>, capped: set<nat>, popped: set<nat>, queue: seq<(nat, nat)>)
    requires Acyclic(cs)
  {
    && (forall x :: x in popped ==> Rooted(cs, roots, x) && Depths(cs)[x] <= CAP_LEVEL)
    && (forall x :: x in capped <==> x in popped && Depths(cs)[x] == CAP_LEVEL)
    && (forall e :: e in queue ==> Rooted(cs, roots, e.0) && e.1 == Depths(cs)[e.0] <= CAP_LEVEL)
    && (forall r :: r in roots ==> r in popped || (r, 0) in queue)
    && (forall x, c :: x in popped && Depths(cs)[x] < CAP_LEVEL && c in cs[x].children ==>
          c in popped || (c, Depths(cs)[x] + 1) in queue)
  }

  function Entries(nodes: seq<nat>, depth: nat): (entries: seq<(nat, nat)>)
    ensures |entries| == |nodes|
    ensures forall k :: 0 <= k < |nodes| ==> entries[k] == (nodes[k], depth)
    ensures forall x :: x in nodes ==> (x, depth) in entries
    ensures forall e :: e in entries ==> e.0 in nodes && e.1 == depth
  {
    var entries := seq(|nodes|, k requires 0 <= k < |nodes| => (nodes[k], depth));
    assert forall k :: 0 <= k < |nodes| ==> entries[k] in entries;
    entries
  }

  lemma SweepStart(cs: seq<Container>, roots: seq<nat>)
    requires Acyclic(cs)
    requires forall r :: r in roots ==> r < |cs| && cs[r].parent.None?
    ensures Sweep(cs, roots, {}, {}, Entries(roots, 0))
  {
  }

  lemma SweepSkip(cs: seq<Container>, roots: seq<nat>, capped: set<nat>, popped: set<nat>, queue: seq<(nat, nat)>)
    requires Acyclic(cs) && Sweep(cs, roots, capped, popped, queue) && queue != []
    requires queue[0].0 in popped
    ensures Sweep(cs, roots, capped, popped, queue[1..])
  {
  }

  lemma SweepPop(cs: seq<Container>, roots: seq<nat>, capped: set<nat>, popped: set<nat>, queue: seq<(nat, nat)>)
    requires Forest(cs) && Sweep(cs, roots, capped, popped, queue) && queue != []
    requires queue[0].0 !in popped
    ensures var (id, depth) := queue[0];
            && id < |cs| && depth == Depths(cs)[id] <= CAP_LEVEL
            && (depth < CAP_LEVEL ==>
                  Sweep(cs, roots, capped, popped + {id}, queue[1..] + Entries(cs[id].children, depth + 1)))
            && (depth == CAP_LEVEL ==> Sweep(cs, roots, capped + {id}, popped + {id}, queue[1..]))
  {
    hide Acyclic, ParentsListChildren, ChildrenPointBack, Path, Rooted, Depths;
    var (id, depth) := queue[0];
    assert queue == [queue[0]] + queue[1..];
    assert queue[0] in queue;
    RootedInside(cs, roots, id);
    forall c | c in cs[id].children ensures Rooted(cs, roots, c) && c < |cs| && Depths(cs)[c] == Depths(cs)[id] + 1 {
      RootedChild(cs, roots, id, c);
    }
  }

  lemma RootedInside(cs: seq<Container>, roots: seq<nat>, x: nat)
    requires Acyclic(cs) && Rooted(cs, roots, x)
    ensures x < |cs|
  {
  }

  lemma RootedChild(cs: seq<Container>, roots: seq<nat>, id: nat, c: nat)
    requires Forest(cs) && Rooted(cs, roots, id) && c in cs[id].children
    ensures Rooted(cs, roots, c) && c < |cs| && Depths(cs)[c] == Depths(cs)[id] + 1
  {
  }

  /** An empty queue means every rooted container within the limit was reached. */
  lemma {:induction false} SweepEnd(cs: seq<Container>, roots: seq<nat>, capped: set<nat>, popped: set<nat>, x: nat)
    requires Forest(cs) && Sweep(cs, roots, capped, popped, [])
    requires Rooted(cs, roots, x) && Depths(cs)[x] <= CAP_LEVEL
    ensures x in popped
    decreases Depths(cs)[x]
  {
    if cs[x].parent.Some? {
      var p := cs[x].parent.value;
      assert Path(cs, x) == Path(cs, p) + [x];
      SweepEnd(cs, roots, capped, popped, p);
      assert x in cs[p].children;
    }
  }

  /** The caps are all the rooted containers at the cap level. */
  ghost predicate AllCaps(cs: seq<Container>, roots: seq<nat>, capped: set<nat>)
    requires Acyclic(cs)
  {
    forall x: nat :: x in capped <==> Rooted(cs, roots, x) && Depths(cs)[x] == CAP_LEVEL
  }

  lemma SweepCaps(cs: seq<Container>, roots: seq<nat>, capped: set<nat>, popped: set<nat>)
    requires Forest(cs) && Sweep(cs, roots, capped, popped, [])
    ensures AllCaps(cs, roots, capped)
  {
    forall x: nat ensures x in capped <==> Rooted(cs, roots, x) && Depths(cs)[x] == CAP_LEVEL {
      if Rooted(cs, roots, x) && Depths(cs)[x] == CAP_LEVEL {
        SweepEnd(cs, roots, capped, popped, x);
      }
    }
  }

  /** The containers the sweep has dealt with: popped ones, and all that lies under a cap. */
  ghost predicate Marks(cs: seq<Container>, capped: set<nat>, popped: set<nat>, seen: seq<bool>)
    requires Acyclic(cs)
  {
    |seen| == |cs| && forall x :: 0 <= x < |cs| ==> (seen[x] <==> x in popped || UnderAny(cs, capped, x))
  }

  lemma NothingMarked(cs: seq<Container>, seen: seq<bool>)
    requires Forest(cs) && |seen| == |cs| && forall x :: 0 <= x < |seen| ==> !seen[x]
    ensures Acyclic(cs) && Marks(cs, {}, {}, seen) && AtCapLevel(cs, {}) && Flattened(cs, {}, cs)
  {
  }

  /** A queued container is marked exactly when it was popped before; a cap that was not popped
      has nothing marked below it. */
  lemma MarkedIsPopped(cs: seq<Container>, roots: seq<nat>, capped: set<nat>, popped: set<nat>,
                       queue: seq<(nat, nat)>, seen: seq<bool>)
    requires Acyclic(cs) && Sweep(cs, roots, capped, popped, queue) && queue != []
    requires Marks(cs, capped, popped, seen)
    ensures var id := queue[0].0;
            && id < |cs| && |seen| == |cs|
            && (seen[id] <==> id in popped)
            && (id !in popped ==> id !in capped && forall x: nat :: UnderCap(cs, id, x) ==> x < |seen| && !seen[x])
  {
  }

  lemma MarkPopped(cs: seq<Container>, capped: set<nat>, popped: set<nat>, seen: seq<bool>, id: nat)
    requires Acyclic(cs) && Marks(cs, capped, popped, seen) && id < |cs|
    ensures Marks(cs, capped, popped + {id}, seen[id := true])
  {
  }

  lemma MarkCapped(cs: seq<Container>, capped: set<nat>, popped: set<nat>, seen: seq<bool>, id: nat, marked: seq<bool>)
    requires Acyclic(cs) && Marks(cs, capped, popped, seen) && |marked| == |seen|
    requires forall x :: 0 <= x < |cs| ==> (marked[x] <==> seen[x] || UnderCap(cs, id, x))
    ensures Marks(cs, capped + {id}, popped, marked)
  {
  }

  lemma OwnChildren(cs: seq<Container>, capped: set<nat>, ds: seq<Container>, x: nat)
    requires Acyclic(cs) && AtCapLevel(cs, capped) && Flattened(cs, capped, ds)
    requires x < |cs| && Depths(cs)[x] < CAP_LEVEL
    ensures |ds| == |cs| && ds[x].children == cs[x].children
  {
  }

  /** Marking a cap itself marks nothing below it. */
  lemma CapNotUnderItself(cs: seq<Container>, cap: nat)
    requires Acyclic(cs) && cap < |cs| && Depths(cs)[cap] == CAP_LEVEL
    ensures !UnderCap(cs, cap, cap)
  {
  }
}
