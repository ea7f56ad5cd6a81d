/** The link structure of the threading arena: containers, their parent and child links, and
    what those links mean. Everything here is about a plain sequence of containers, so the
    arena's methods can be specified by it. */
module Forests {
  import opened Options
  import opened Sequences

  /** One container: the record it holds, if any, and its links, as arena indices. */
  datatype Container = Container(article: Option<nat>, parent: Option<nat>, children: seq<nat>)

  // ----- parent links -----

  /** `d` measures every container's distance from its root: the parent links are acyclic. */
  ghost predicate MeasuresDepth(cs: seq<Container>, d: seq<nat>) {
    && |d| == |cs|
    && forall x {:trigger cs[x].parent} :: 0 <= x < |cs| ==>
         match cs[x].parent
         case None => d[x] == 0
         case Some(p) => p < |cs| && d[x] == d[p] + 1
  }

  ghost predicate Acyclic(cs: seq<Container>) {
    exists d :: MeasuresDepth(cs, d)
  }

  ghost function Depths(cs: seq<Container>): (d: seq<nat>)
    requires Acyclic(cs)
    ensures MeasuresDepth(cs, d)
  {
    var d :| MeasuresDepth(cs, d); d
  }

  /** The containers from the root down to `x`, `x` included. */
  ghost function Path(cs: seq<Container>, x: nat): (path: seq<nat>)
    requires Acyclic(cs) && x < |cs|
    ensures |path| == Depths(cs)[x] + 1
    ensures path[|path| - 1] == x
    ensures forall k :: 0 <= k < |path| ==> path[k] < |cs|
    decreases Depths(cs)[x]
  {
    match cs[x].parent
    case None => [x]
    case Some(p) => Path(cs, p) + [x]
  }

  /** The `k`-th container on a path is at depth `k`, and its own path is the part above it. */
  lemma {:induction false} PathPrefix(cs: seq<Container>, x: nat, k: nat)
    requires Acyclic(cs) && x < |cs| && k <= Depths(cs)[x]
    ensures Path(cs, Path(cs, x)[k]) == Path(cs, x)[..k + 1]
    ensures Depths(cs)[Path(cs, x)[k]] == k
    decreases Depths(cs)[x]
  {
    if k < Depths(cs)[x] {
      PathPrefix(cs, cs[x].parent.value, k);
      assert Path(cs, x)[..k + 1] == Path(cs, cs[x].parent.value)[..k + 1];
    } else {
      assert Path(cs, x)[..k + 1] == Path(cs, x);
    }
  }

  lemma OnPath(cs: seq<Container>, a: nat, x: nat)
    requires Acyclic(cs) && x < |cs| && a in Path(cs, x)
    ensures a < |cs| && Depths(cs)[a] <= Depths(cs)[x]
    ensures Path(cs, x)[Depths(cs)[a]] == a
    ensures Path(cs, a) == Path(cs, x)[..Depths(cs)[a] + 1]
    ensures Depths(cs)[a] == Depths(cs)[x] ==> a == x
  {
    var k :| 0 <= k < |Path(cs, x)| && Path(cs, x)[k] == a;
    PathPrefix(cs, x, k);
  }

  /** Paths never repeat a container, so none is longer than the arena. */
  lemma PathBounded(cs: seq<Container>, x: nat)
    requires Acyclic(cs) && x < |cs|
    ensures Distinct(Path(cs, x))
    ensures Depths(cs)[x] < |cs|
  {
    var path := Path(cs, x);
    forall i, j | 0 <= i < j < |path| ensures path[i] != path[j] {
      PathPrefix(cs, x, i);
      PathPrefix(cs, x, j);
    }
    DistinctBounded(path, |cs|);
  }

  /** A path only depends on the parent links along it. */
  lemma {:induction false} PathFrame(cs: seq<Container>, ds: seq<Container>, x: nat)
    requires Acyclic(cs) && Acyclic(ds) && |cs| <= |ds| && x < |cs|
    requires forall y :: y in Path(cs, x) ==> ds[y].parent == cs[y].parent
    ensures Path(ds, x) == Path(cs, x)
    decreases Depths(cs)[x]
  {
    assert x in Path(cs, x);
    if cs[x].parent.Some? {
      var p := cs[x].parent.value;
      forall y | y in Path(cs, p) ensures ds[y].parent == cs[y].parent {
        assert y in Path(cs, x);
      }
      PathFrame(cs, ds, p);
    }
  }

  // ----- parent and child links together -----

  /** Every child link is the reverse of a parent link, and no child is listed twice. */
  ghost predicate ChildrenPointBack(cs: seq<Container>) {
    && (forall p, k :: 0 <= p < |cs| && 0 <= k < |cs[p].children| ==>
          cs[p].children[k] < |cs| && cs[cs[p].children[k]].parent == Some(p))
    && (forall p :: 0 <= p < |cs| ==> Distinct(cs[p].children))
  }

  /** Every parent link has its child link. */
  ghost predicate ParentsListChildren(cs: seq<Container>) {
    forall c {:trigger cs[c].parent} :: 0 <= c < |cs| && cs[c].parent.Some? ==>
      cs[c].parent.value < |cs| && c in cs[cs[c].parent.value].children
  }

  /** The arena invariant: parent links are acyclic, and a child is listed exactly once, by
      exactly its parent. */
  ghost predicate Forest(cs: seq<Container>) {
    Acyclic(cs) && ChildrenPointBack(cs) && ParentsListChildren(cs)
  }

  /** `x` is `a`, or is reached from `a` by child links. */
  ghost predicate Holds(cs: seq<Container>, a: nat, x: nat)
    requires Acyclic(cs) && x < |cs|
    decreases Depths(cs)[x]
  {
    a == x ||
    (cs[x].parent.Some? && x in cs[cs[x].parent.value].children && Holds(cs, a, cs[x].parent.value))
  }

  /** In a forest, what a container holds is what has it on its path. */
  lemma {:induction false} HoldsIsOnPath(cs: seq<Container>, a: nat, x: nat)
    requires Forest(cs) && x < |cs|
    ensures Holds(cs, a, x) <==> a in Path(cs, x)
    decreases Depths(cs)[x]
  {
    if cs[x].parent.Some? {
      HoldsIsOnPath(cs, a, cs[x].parent.value);
    }
  }

  lemma {:induction false} HoldsBounds(cs: seq<Container>, a: nat, x: nat)
    requires Acyclic(cs) && x < |cs| && Holds(cs, a, x)
    ensures a < |cs|
    ensures a in Path(cs, x)
    decreases Depths(cs)[x]
  {
    if a != x {
      HoldsBounds(cs, a, cs[x].parent.value);
    }
  }

  // ----- the oldest article below a container -----

  /** `oldest` is the lowest record index held by `id` among the first `n` containers, or
      nothing if there is none. */
  ghost predicate IsOldest(cs: seq<Container>, id: nat, n: nat, oldest: Option<nat>)
    requires Acyclic(cs) && n <= |cs|
  {
    match oldest
    case None => forall x :: 0 <= x < n && Holds(cs, id, x) ==> cs[x].article.None?
    case Some(a) =>
      && (exists x :: 0 <= x < n && Holds(cs, id, x) && cs[x].article == Some(a))
      && (forall x :: 0 <= x < n && Holds(cs, id, x) && cs[x].article.Some? ==> a <= cs[x].article.value)
  }

  ghost function OldestAmong(cs: seq<Container>, id: nat, n: nat): (oldest: Option<nat>)
    requires Acyclic(cs) && n <= |cs|
    ensures IsOldest(cs, id, n, oldest)
  {
    if n == 0 then None
    else
      var before := OldestAmong(cs, id, n - 1);
      if !Holds(cs, id, n - 1) || cs[n - 1].article.None? then before
      else if before.None? || cs[n - 1].article.value < before.value then cs[n - 1].article
      else before
  }

  /** The lowest record index anywhere below `id`. */
  ghost function Oldest(cs: seq<Container>, id: nat): (oldest: Option<nat>)
    requires Acyclic(cs)
    ensures IsOldest(cs, id, |cs|, oldest)
  {
    OldestAmong(cs, id, |cs|)
  }

  // ----- which container holds which record -----

  /** Record `i` sits in container `placed[i]` and nowhere else, and no other record is held. */
  ghost predicate Placed(cs: seq<Container>, placed: seq<nat>) {
    && (forall i :: 0 <= i < |placed| ==> placed[i] < |cs| && cs[placed[i]].article == Some(i))
    && (forall x {:trigger cs[x].article} :: 0 <= x < |cs| && cs[x].article.Some? ==>
          cs[x].article.value < |placed| && placed[cs[x].article.value] == x)
  }

  // ----- adding one link -----

  /** `cs` with `child` linked under `parent`. */
  function Linked(cs: seq<Container>, child: nat, parent: nat): (ds: seq<Container>)
    requires child < |cs| && parent < |cs| && child != parent
    ensures |ds| == |cs|
    ensures ds[child] == cs[child].(parent := Some(parent))
    ensures ds[parent] == cs[parent].(children := cs[parent].children + [child])
    ensures forall x :: 0 <= x < |cs| && x != child && x != parent ==> ds[x] == cs[x]
  {
    cs[child := cs[child].(parent := Some(parent))]
      [parent := cs[parent].(children := cs[parent].children + [child])]
  }

  /** Linking a root under a container it does not hold keeps the forest. */
  lemma LinkKeepsForest(cs: seq<Container>, child: nat, parent: nat)
    requires Forest(cs) && child < |cs| && parent < |cs| && child != parent
    requires cs[child].parent.None? && child !in Path(cs, parent)
    ensures Forest(Linked(cs, child, parent))
  {
    LinkKeepsAcyclic(cs, child, parent);
    LinkPointsBack(cs, child, parent);
    LinkIsListed(cs, child, parent);
  }

  lemma LinkPointsBack(cs: seq<Container>, child: nat, parent: nat)
    requires ChildrenPointBack(cs) && child < |cs| && parent < |cs| && child != parent
    requires cs[child].parent.None?
    ensures ChildrenPointBack(Linked(cs, child, parent))
  {
    var ds := Linked(cs, child, parent);
    assert child !in cs[parent].children;
    forall p, k | 0 <= p < |ds| && 0 <= k < |ds[p].children|
      ensures ds[p].children[k] < |ds| && ds[ds[p].children[k]].parent == Some(p)
    {
      if k < |cs[p].children| {
        assert cs[cs[p].children[k]].parent == Some(p);
      }
    }
  }

  lemma LinkIsListed(cs: seq<Container>, child: nat, parent: nat)
    requires ParentsListChildren(cs) && child < |cs| && parent < |cs| && child != parent
    ensures ParentsListChildren(Linked(cs, child, parent))
  {
    var ds := Linked(cs, child, parent);
    forall c | 0 <= c < |ds| && ds[c].parent.Some?
      ensures ds[c].parent.value < |ds| && c in ds[ds[c].parent.value].children
    {
      if c != child {
        assert cs[c].parent == ds[c].parent;
      }
    }
  }

  lemma LinkKeepsAcyclic(cs: seq<Container>, child: nat, parent: nat)
    requires Acyclic(cs) && child < |cs| && parent < |cs| && child != parent
    requires cs[child].parent.None? && child !in Path(cs, parent)
    ensures Acyclic(Linked(cs, child, parent))
  {
    var ds := Linked(cs, child, parent);
    var d := Depths(cs);
    var e := seq(|cs|, x requires 0 <= x < |cs| => if child in Path(cs, x) then d[x] + d[parent] + 1 else d[x]);
    forall x | 0 <= x < |ds|
      ensures match ds[x].parent
              case None => e[x] == 0
              case Some(p) => p < |ds| && e[x] == e[p] + 1
    {
      if x == child {
        assert child in Path(cs, child);
      } else if cs[x].parent.Some? {
        assert Path(cs, x) == Path(cs, cs[x].parent.value) + [x];
      } else {
        assert Path(cs, x) == [x];
      }
    }
    assert MeasuresDepth(ds, e);
  }

  lemma {:induction false} LinkPaths(cs: seq<Container>, child: nat, parent: nat, x: nat)
    requires Acyclic(cs) && child < |cs| && parent < |cs| && child != parent && x < |cs|
    requires cs[child].parent.None? && child !in Path(cs, parent)
    requires Acyclic(Linked(cs, child, parent))
    ensures Path(Linked(cs, child, parent), x) ==
            if child in Path(cs, x) then Path(cs, parent) + Path(cs, x) else Path(cs, x)
    decreases Depths(cs)[x]
  {
    var ds := Linked(cs, child, parent);
    assert x in Path(cs, x);
    if x == child {
      PathFrame(cs, ds, parent);
    } else if cs[x].parent.Some? {
      var p := cs[x].parent.value;
      LinkPaths(cs, child, parent, p);
      assert Path(cs, x) == Path(cs, p) + [x];
      assert Path(ds, x) == Path(ds, p) + [x];
    }
  }

  // ----- adding one container -----

  function Grown(cs: seq<Container>, article: Option<nat>): (ds: seq<Container>)
    ensures |ds| == |cs| + 1 && ds[..|cs|] == cs
  {
    cs + [Container(article, None, [])]
  }

  lemma GrowKeepsForest(cs: seq<Container>, article: Option<nat>)
    requires Forest(cs)
    ensures Forest(Grown(cs, article))
  {
    var ds := Grown(cs, article);
    assert MeasuresDepth(ds, Depths(cs) + [0]);
    forall c | 0 <= c < |ds| && ds[c].parent.Some?
      ensures ds[c].parent.value < |ds| && c in ds[ds[c].parent.value].children
    {
      assert cs[c].parent == ds[c].parent;
    }
  }

  // ----- walking down the child links -----

  /** A walk down from `id`: the containers in `done` have been visited and their children
      pushed, those on `stack` have not. */
  ghost predicate Walk(cs: seq<Container>, id: nat, done: set<nat>, stack: seq<nat>)
    requires Acyclic(cs)
  {
    && (forall v :: v in done ==> Visited(cs, id, done, v))
    && (forall s :: s in stack ==> s !in done && Visited(cs, id, done, s))
    && Distinct(stack)
    && (id in done || id in stack)
    && (forall v, c :: v in done && c in cs[v].children ==> c in done || c in stack)
  }

  ghost predicate Visited(cs: seq<Container>, id: nat, done: set<nat>, x: nat)
    requires Acyclic(cs)
  {
    x < |cs| && Holds(cs, id, x) && (x != id ==> cs[x].parent.Some? && cs[x].parent.value in done)
  }

  lemma WalkStart(cs: seq<Container>, id: nat)
    requires Acyclic(cs) && id < |cs|
    ensures Walk(cs, id, {}, [id])
  {
  }

  lemma HoldsDeeper(cs: seq<Container>, a: nat, x: nat)
    requires Acyclic(cs) && x < |cs| && Holds(cs, a, x)
    ensures a < |cs| && Depths(cs)[a] <= Depths(cs)[x]
  {
    HoldsBounds(cs, a, x);
    OnPath(cs, a, x);
  }

  /** A child of the container being visited has not been seen yet. */
  lemma ChildUnseen(cs: seq<Container>, id: nat, done: set<nat>, stack: seq<nat>, current: nat, c: nat)
    requires Acyclic(cs) && ChildrenPointBack(cs) && Walk(cs, id, done, stack)
    requires current in stack && c in cs[current].children
    ensures c !in done && c !in stack && c != id
    ensures Visited(cs, id, done + {current}, c)
  {
    assert Visited(cs, id, done, current);
    HoldsDeeper(cs, id, current);
    assert cs[c].parent == Some(current);
    assert Depths(cs)[c] == Depths(cs)[current] + 1;
    assert c in done ==> Visited(cs, id, done, c);
  }

  /** Popping a container and pushing its children keeps the walk going. */
  lemma WalkStep(cs: seq<Container>, id: nat, done: set<nat>, stack: seq<nat>)
    requires Acyclic(cs) && ChildrenPointBack(cs)
    requires Walk(cs, id, done, stack) && stack != []
    ensures stack[|stack| - 1] < |cs| && stack[|stack| - 1] !in done
    ensures Walk(cs, id, done + {stack[|stack| - 1]},
                 stack[..|stack| - 1] + cs[stack[|stack| - 1]].children)
  {
    hide Holds;
    var current := stack[|stack| - 1];
    assert current in stack && Visited(cs, id, done, current);
    var rest, children := stack[..|stack| - 1], cs[current].children;
    var next := rest + children;
    assert stack == rest + [current];
    forall c | c in children
      ensures c !in done && c !in stack && c != id && Visited(cs, id, done + {current}, c)
    {
      ChildUnseen(cs, id, done, stack, current, c);
    }
    forall s | s in next ensures s !in done + {current} && Visited(cs, id, done + {current}, s) {
      if s in rest {
        assert s in stack && Visited(cs, id, done, s);
      }
    }
    forall i, j | 0 <= i < j < |next| ensures next[i] != next[j] {
      if i < |rest| && j < |rest| {
        assert next[i] == stack[i] && next[j] == stack[j];
      } else if i < |rest| {
        assert next[i] in stack && next[j] in children;
      } else {
        assert next[i] == children[i - |rest|] && next[j] == children[j - |rest|];
      }
    }
  }

  /** A walk with nothing left to visit has visited exactly what `id` holds. */
  lemma {:induction false} WalkEnd(cs: seq<Container>, id: nat, done: set<nat>, x: nat)
    requires Acyclic(cs) && ChildrenPointBack(cs) && x < |cs|
    requires Walk(cs, id, done, [])
    ensures x in done <==> Holds(cs, id, x)
    decreases Depths(cs)[x]
  {
    if x in done {
      assert Visited(cs, id, done, x);
    }
    if x != id && Holds(cs, id, x) {
      WalkEnd(cs, id, done, cs[x].parent.value);
    }
  }

  /** `best` is the lowest record index among the visited containers and `id` itself. */
  ghost predicate LowestSeen(cs: seq<Container>, id: nat, done: set<nat>, best: Option<nat>)
    requires id < |cs|
  {
    match best
    case None => cs[id].article.None? && forall v :: v in done && v < |cs| ==> cs[v].article.None?
    case Some(a) =>
      && (exists v :: v in done + {id} && v < |cs| && cs[v].article == Some(a))
      && (forall v :: v in done && v < |cs| && cs[v].article.Some? ==> a <= cs[v].article.value)
  }

  function Lower(best: Option<nat>, article: Option<nat>): Option<nat> {
    if article.None? then best
    else if best.Some? && best.value <= article.value then best
    else article
  }

  lemma LowestStart(cs: seq<Container>, id: nat)
    requires id < |cs|
    ensures LowestSeen(cs, id, {}, cs[id].article)
  {
  }

  lemma LowestStep(cs: seq<Container>, id: nat, done: set<nat>, best: Option<nat>, x: nat)
    requires id < |cs| && x < |cs| && LowestSeen(cs, id, done, best)
    ensures LowestSeen(cs, id, done + {x}, Lower(best, cs[x].article))
  {
  }

  lemma WalkFindsOldest(cs: seq<Container>, id: nat, done: set<nat>, best: Option<nat>)
    requires Acyclic(cs) && ChildrenPointBack(cs) && id < |cs|
    requires Walk(cs, id, done, []) && LowestSeen(cs, id, done, best)
    ensures best == Oldest(cs, id)
  {
    forall x | 0 <= x < |cs| ensures x in done <==> Holds(cs, id, x) {
      WalkEnd(cs, id, done, x);
    }
    assert IsOldest(cs, id, |cs|, best);
    OldestUnique(cs, id, best, Oldest(cs, id));
  }

  lemma OldestUnique(cs: seq<Container>, id: nat, a: Option<nat>, b: Option<nat>)
    requires Acyclic(cs) && IsOldest(cs, id, |cs|, a) && IsOldest(cs, id, |cs|, b)
    ensures a == b
  {
  }

  // ----- roots -----

  /** The parentless containers that hold an article somewhere, oldest article first. */
  ghost predicate RootList(cs: seq<Container>, roots: seq<nat>)
    requires Acyclic(cs)
  {
    && (forall k :: 0 <= k < |roots| ==> IsRoot(cs, roots[k]))
    && (forall x :: IsRoot(cs, x) ==> x in roots)
    && (forall i, j :: 0 <= i < j < |roots| ==> Oldest(cs, roots[i]).value < Oldest(cs, roots[j]).value)
  }

  ghost predicate IsRoot(cs: seq<Container>, x: nat)
    requires Acyclic(cs)
  {
    x < |cs| && cs[x].parent.None? && Oldest(cs, x).Some?
  }

  /** Two parentless containers hold nothing in common. */
  lemma RootOfPath(cs: seq<Container>, root: nat, x: nat)
    requires Forest(cs) && root < |cs| && cs[root].parent.None? && x < |cs|
    ensures Holds(cs, root, x) <==> Path(cs, x)[0] == root
  {
    HoldsIsOnPath(cs, root, x);
    if root in Path(cs, x) {
      OnPath(cs, root, x);
    }
  }

  lemma RootsApart(cs: seq<Container>, placed: seq<nat>, r: nat, s: nat)
    requires Forest(cs) && Placed(cs, placed)
    requires IsRoot(cs, r) && IsRoot(cs, s) && r != s
    ensures Oldest(cs, r) != Oldest(cs, s)
  {
    var x :| 0 <= x < |cs| && Holds(cs, r, x) && cs[x].article == Oldest(cs, r);
    var y :| 0 <= y < |cs| && Holds(cs, s, y) && cs[y].article == Oldest(cs, s);
    RootOfPath(cs, r, x);
    RootOfPath(cs, s, y);
  }
}
