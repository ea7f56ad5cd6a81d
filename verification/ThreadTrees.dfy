/** The tree a caller sees, and how it is built from the arena with empty containers pruned. */
module ThreadTrees {
  import opened Options
  import opened Sequences
  import opened Forests

  /** The largest 64-bit index, which stands for "no article" when nodes are ordered. */
  const USIZE_MAX: nat := 0xFFFF_FFFF_FFFF_FFFF

  datatype ThreadNode = ThreadNode(article: Option<nat>, children: seq<ThreadNode>) {

    /** The number of articles in this node and everything below it. */
    function Len(): nat {
      (if article.Some? then 1 else 0) + LenAll(children)
    }

    /** The lowest record index in this node's subtree, for ordering. */
    function FirstArticle(): nat {
      FirstAmong(children, if article.Some? then article.value else USIZE_MAX)
    }
  }

  function LenAll(nodes: seq<ThreadNode>): nat {
    if nodes == [] then 0 else nodes[0].Len() + LenAll(nodes[1..])
  }

  function FirstAmong(nodes: seq<ThreadNode>, best: nat): nat {
    if nodes == [] then best
    else
      var first := nodes[0].FirstArticle();
      FirstAmong(nodes[1..], if first < best then first else best)
  }

  // ----- what a tree says -----

  /** How often record `a` occurs. */
  ghost function Count(node: ThreadNode, a: nat): nat {
    (if node.article == Some(a) then 1 else 0) + CountAll(node.children, a)
  }

  ghost function CountAll(nodes: seq<ThreadNode>, a: nat): nat {
    if nodes == [] then 0 else Count(nodes[0], a) + CountAll(nodes[1..], a)
  }

  /** The records in a tree, with repeats. */
  ghost function Bag(node: ThreadNode): multiset<nat> {
    (if node.article.Some? then multiset{node.article.value} else multiset{}) + BagAll(node.children)
  }

  ghost function BagAll(nodes: seq<ThreadNode>): multiset<nat> {
    if nodes == [] then multiset{} else Bag(nodes[0]) + BagAll(nodes[1..])
  }

  ghost function Records(node: ThreadNode): set<nat> {
    set a | a in Bag(node)
  }

  /** What can be said of a node without saying where it is: its own article, and the records in it and
      below it. */
  datatype Level = Level(article: Option<nat>, records: set<nat>)

  /** The nodes from this one down to the first occurrence of record `a`. */
  ghost function Spine(node: ThreadNode, a: nat): Option<seq<Level>> {
    var own := [Level(node.article, Records(node))];
    if node.article == Some(a) then Some(own)
    else
      match SpineAmong(node.children, a)
      case None => None
      case Some(levels) => Some(own + levels)
  }

  ghost function SpineAmong(nodes: seq<ThreadNode>, a: nat): Option<seq<Level>> {
    if nodes == [] then None
    else if Spine(nodes[0], a).Some? then Spine(nodes[0], a)
    else SpineAmong(nodes[1..], a)
  }

  /** The records that some nodes hold themselves. */
  ghost function Own(levels: seq<Level>): seq<nat> {
    if levels == [] then []
    else (if levels[0].article.Some? then [levels[0].article.value] else []) + Own(levels[1..])
  }

  /** The records in the nodes above the first occurrence of record `a`, outermost first. */
  ghost function TrailAmong(nodes: seq<ThreadNode>, a: nat): Option<seq<nat>> {
    match SpineAmong(nodes, a)
    case None => None
    case Some(levels) => if levels == [] then None else Some(Own(levels[..|levels| - 1]))
  }

  lemma {:induction false} BagCounts(node: ThreadNode, a: nat)
    ensures Bag(node)[a] == Count(node, a) && |Bag(node)| == node.Len()
    decreases node, 0
  {
    BagAllCounts(node.children, a);
  }

  lemma {:induction false} BagAllCounts(nodes: seq<ThreadNode>, a: nat)
    ensures BagAll(nodes)[a] == CountAll(nodes, a) && |BagAll(nodes)| == LenAll(nodes)
    decreases nodes, 1
  {
    if nodes != [] {
      BagCounts(nodes[0], a);
      BagAllCounts(nodes[1..], a);
    }
  }

  /** Trees in which each of `n` records occurs once, and nothing else, have `n` articles between
      them. */
  lemma LengthsAddUp(nodes: seq<ThreadNode>, n: nat)
    requires forall a: nat :: CountAll(nodes, a) == if a < n then 1 else 0
    ensures LenAll(nodes) == n
  {
    forall a: nat ensures BagAll(nodes)[a] == multiset(Below(n))[a] {
      BagAllCounts(nodes, a);
    }
    BagAllCounts(nodes, 0);
    assert BagAll(nodes) == multiset(Below(n));
  }

  /** Nothing in the tree is idle: an empty node holds at least two others, and siblings strictly
      increase by their oldest article. */
  ghost predicate Shaped(node: ThreadNode) {
    && (node.article.Some? ==> node.article.value < USIZE_MAX)
    && (node.article.None? ==> |node.children| >= 2)
    && (forall i, j :: 0 <= i < j < |node.children| ==>
          node.children[i].FirstArticle() < node.children[j].FirstArticle())
    && ShapedAll(node.children)
  }

  ghost predicate ShapedAll(nodes: seq<ThreadNode>) {
    forall k :: 0 <= k < |nodes| ==> Shaped(nodes[k])
  }

  /** No node is more than `levels` levels below this one. */
  ghost predicate Within(node: ThreadNode, levels: nat)
    decreases node
  {
    forall k :: 0 <= k < |node.children| ==> levels > 0 && Within(node.children[k], levels - 1)
  }

  // ----- building -----

  /** Siblings are ordered by their oldest article. */
  const OLDER: (ThreadNode, ThreadNode) -> bool :=
    (a: ThreadNode, b: ThreadNode) => a.FirstArticle() <= b.FirstArticle()

  /** An empty container with no children is dropped, one with a single child gives way to it. */
  function Pruned(article: Option<nat>, children: seq<ThreadNode>): Option<ThreadNode> {
    if article.None? then
      if |children| == 0 then None
      else if |children| == 1 then Some(children[0])
      else Some(ThreadNode(None, children))
    else
      Some(ThreadNode(article, children))
  }

  function Build(cs: seq<Container>, id: nat): Option<ThreadNode>
    requires Forest(cs) && id < |cs|
    decreases |cs| - Depths(cs)[id], 0
  {
    ChildDepths(cs, id);
    Pruned(cs[id].article, SortBy(BuildAll(cs, cs[id].children, Depths(cs)[id] + 1), OLDER))
  }

  /** The trees of some containers, all `level` deep, skipping those that come to nothing. */
  function BuildAll(cs: seq<Container>, ids: seq<nat>, ghost level: nat): seq<ThreadNode>
    requires Forest(cs) && level <= |cs|
    requires forall id :: id in ids ==> id < |cs| && Depths(cs)[id] == level
    decreases |cs| - level, |ids|
  {
    if ids == [] then []
    else
      assert ids[0] in ids && forall id :: id in ids[1..] ==> id in ids;
      match Build(cs, ids[0])
      case None => BuildAll(cs, ids[1..], level)
      case Some(node) => [node] + BuildAll(cs, ids[1..], level)
  }

  lemma ChildDepths(cs: seq<Container>, id: nat)
    requires Forest(cs) && id < |cs|
    ensures Depths(cs)[id] < |cs| && Distinct(cs[id].children)
    ensures forall c :: c in cs[id].children ==> c < |cs| && Depths(cs)[c] == Depths(cs)[id] + 1
  {
    PathBounded(cs, id);
    forall c | c in cs[id].children ensures c < |cs| && Depths(cs)[c] == Depths(cs)[id] + 1 {
      assert cs[c].parent == Some(id);
    }
  }

  // ----- every held article occurs exactly once -----

  lemma {:induction false} InsertCount(x: ThreadNode, nodes: seq<ThreadNode>, a: nat)
    ensures CountAll(InsertBy(x, nodes, OLDER), a) == Count(x, a) + CountAll(nodes, a)
  {
    if nodes == [] || OLDER(x, nodes[0]) {
      assert ([x] + nodes)[1..] == nodes;
    } else {
      InsertCount(x, nodes[1..], a);
      var rest := InsertBy(x, nodes[1..], OLDER);
      assert ([nodes[0]] + rest)[1..] == rest;
    }
  }

  lemma {:induction false} SortCount(nodes: seq<ThreadNode>, a: nat)
    ensures CountAll(SortBy(nodes, OLDER), a) == CountAll(nodes, a)
  {
    if nodes != [] {
      SortCount(nodes[1..], a);
      InsertCount(nodes[0], SortBy(nodes[1..], OLDER), a);
    }
  }

  /** Whether record `a` is held at or below `id`. */
  ghost predicate HeldUnder(cs: seq<Container>, placed: seq<nat>, id: nat, a: nat)
    requires Forest(cs) && Placed(cs, placed)
  {
    a < |placed| && id in Path(cs, placed[a])
  }

  lemma {:induction false} BuildCount(cs: seq<Container>, placed: seq<nat>, id: nat, a: nat)
    requires Forest(cs) && Placed(cs, placed) && id < |cs|
    ensures (if Build(cs, id).Some? then Count(Build(cs, id).value, a) else 0)
            == if HeldUnder(cs, placed, id, a) then 1 else 0
    decreases |cs| - Depths(cs)[id], 0
  {
    hide Acyclic, ChildrenPointBack, ParentsListChildren, Placed, Path, HeldUnder;
    ChildDepths(cs, id);
    var level := Depths(cs)[id] + 1;
    var built := BuildAll(cs, cs[id].children, level);
    BuildAllCount(cs, placed, cs[id].children, level, a);
    SortCount(built, a);
    OwnOrChild(cs, placed, id, a);
    PrunedCount(cs[id].article, SortBy(built, OLDER), a);
  }

  lemma PrunedCount(article: Option<nat>, children: seq<ThreadNode>, a: nat)
    ensures (if Pruned(article, children).Some? then Count(Pruned(article, children).value, a) else 0)
            == (if article == Some(a) then 1 else 0) + CountAll(children, a)
  {
  }

  lemma {:induction false} BuildAllCount(cs: seq<Container>, placed: seq<nat>, ids: seq<nat>, level: nat, a: nat)
    requires Forest(cs) && Placed(cs, placed) && level <= |cs| && Distinct(ids)
    requires forall id :: id in ids ==> id < |cs| && Depths(cs)[id] == level
    ensures CountAll(BuildAll(cs, ids, level), a)
            == if exists id :: id in ids && HeldUnder(cs, placed, id, a) then 1 else 0
    decreases |cs| - level, |ids|
  {
    if ids != [] {
      assert ids[0] in ids;
      BuildCount(cs, placed, ids[0], a);
      assert forall id :: id in ids[1..] ==> id in ids;
      BuildAllCount(cs, placed, ids[1..], level, a);
      if HeldUnder(cs, placed, ids[0], a) {
        forall id | id in ids[1..] ensures !HeldUnder(cs, placed, id, a) {
          if id in Path(cs, placed[a]) {
            OnPath(cs, id, placed[a]);
            OnPath(cs, ids[0], placed[a]);
          }
        }
      }
      assert forall id :: id in ids <==> id == ids[0] || id in ids[1..];
      var first := Build(cs, ids[0]);
      if first.Some? {
        assert ([first.value] + BuildAll(cs, ids[1..], level))[1..] == BuildAll(cs, ids[1..], level);
      }
    }
  }

  /** A record held below `id` is in `id` itself or below exactly one of its children. */
  lemma OwnOrChild(cs: seq<Container>, placed: seq<nat>, id: nat, a: nat)
    requires Forest(cs) && Placed(cs, placed) && id < |cs|
    ensures HeldUnder(cs, placed, id, a) <==>
            cs[id].article == Some(a) || exists c :: c in cs[id].children && HeldUnder(cs, placed, c, a)
    ensures cs[id].article == Some(a) ==> forall c :: c in cs[id].children ==> !HeldUnder(cs, placed, c, a)
  {
    if a < |placed| {
      hide Forest, Path, Acyclic;
      PathSplit(cs, id, placed[a]);
      assert cs[id].article == Some(a) <==> placed[a] == id;
    }
  }

  lemma PathSplit(cs: seq<Container>, id: nat, x: nat)
    requires Forest(cs) && id < |cs| && x < |cs|
    ensures id in Path(cs, x) <==> x == id || exists c :: c in cs[id].children && c in Path(cs, x)
    ensures forall c :: c in cs[id].children ==> c !in Path(cs, id)
  {
    hide Acyclic, ChildrenPointBack, ParentsListChildren, Path;
    assert Path(cs, id)[|Path(cs, id)| - 1] in Path(cs, id);
    if id in Path(cs, x) && x != id {
      NextOnPath(cs, id, x);
    }
    forall c | c in cs[id].children
      ensures c in Path(cs, x) ==> id in Path(cs, x)
      ensures c !in Path(cs, id)
    {
      ParentOnPath(cs, id, c, x);
    }
  }

  lemma ParentOnPath(cs: seq<Container>, id: nat, c: nat, x: nat)
    requires Forest(cs) && id < |cs| && c in cs[id].children && x < |cs|
    ensures c in Path(cs, x) ==> id in Path(cs, x)
    ensures c !in Path(cs, id)
  {
    hide ChildrenPointBack, ParentsListChildren, Acyclic, Path;
    ChildPath(cs, id, c);
    if c in Path(cs, x) {
      OnPath(cs, c, x);
      assert Path(cs, c)[Depths(cs)[id]] == id;
    }
    if c in Path(cs, id) {
      OnPath(cs, c, id);
    }
  }

  lemma ChildPath(cs: seq<Container>, id: nat, c: nat)
    requires Forest(cs) && id < |cs| && c in cs[id].children
    ensures c < |cs| && Depths(cs)[c] == Depths(cs)[id] + 1
    ensures Path(cs, c) == Path(cs, id) + [c]
  {
  }

  lemma NextOnPath(cs: seq<Container>, id: nat, x: nat)
    requires Forest(cs) && x < |cs| && id in Path(cs, x) && x != id
    ensures id < |cs| && Depths(cs)[id] < Depths(cs)[x]
    ensures var c := Path(cs, x)[Depths(cs)[id] + 1];
            c < |cs| && c in cs[id].children && c in Path(cs, x)
  {
    OnPath(cs, id, x);
    var c := Path(cs, x)[Depths(cs)[id] + 1];
    PathPrefix(cs, x, Depths(cs)[id] + 1);
    assert Path(cs, c) == Path(cs, cs[c].parent.value) + [c];
    assert Path(cs, c)[Depths(cs)[id]] == id;
  }

  // ----- the built tree keeps the order of oldest articles -----

  /** The first article of a tree is the least record it contains. */
  lemma {:induction false} FirstIsLeast(node: ThreadNode, a: nat)
    ensures Count(node, a) > 0 ==> node.FirstArticle() <= a
    ensures node.FirstArticle() < USIZE_MAX ==> Count(node, node.FirstArticle()) > 0
    decreases node, 0
  {
    var own := if node.article.Some? then node.article.value else USIZE_MAX;
    FirstAmongLeast(node.children, own, a);
  }

  lemma {:induction false} FirstAmongLeast(nodes: seq<ThreadNode>, best: nat, a: nat)
    ensures FirstAmong(nodes, best) <= best
    ensures CountAll(nodes, a) > 0 ==> FirstAmong(nodes, best) <= a
    ensures FirstAmong(nodes, best) == best ||
            (FirstAmong(nodes, best) < best && (FirstAmong(nodes, best) < USIZE_MAX ==>
                CountAll(nodes, FirstAmong(nodes, best)) > 0))
    decreases nodes, 1
  {
    if nodes != [] {
      FirstIsLeast(nodes[0], a);
      var first := nodes[0].FirstArticle();
      FirstAmongLeast(nodes[1..], if first < best then first else best, a);
    }
  }

  lemma {:induction false} ShapedHasArticle(node: ThreadNode)
    requires Shaped(node)
    ensures node.FirstArticle() < USIZE_MAX
    ensures node.Len() > 0
  {
    var own := if node.article.Some? then node.article.value else USIZE_MAX;
    if node.article.None? {
      ShapedHasArticle(node.children[0]);
      var first := node.children[0].FirstArticle();
      FirstAmongLeast(node.children[1..], if first < own then first else own, 0);
    } else {
      FirstAmongLeast(node.children, own, 0);
    }
  }

  /** Sorted trees that share no record strictly increase. */
  lemma StrictlyIncreasing(nodes: seq<ThreadNode>, i: nat, j: nat)
    requires SortedBy(nodes, OLDER) && i < j < |nodes|
    requires Shaped(nodes[i]) && Shaped(nodes[j])
    requires forall a: nat :: CountAll(nodes, a) <= 1
    ensures nodes[i].FirstArticle() < nodes[j].FirstArticle()
  {
    hide Shaped, Count, CountAll;
    ShapedHasArticle(nodes[i]);
    var a := nodes[i].FirstArticle();
    FirstIsLeast(nodes[i], 0);
    FirstIsLeast(nodes[j], 0);
    assert OLDER(nodes[i], nodes[j]);
    CountTwo(nodes, i, j, a);
  }

  lemma {:induction false} CountAt(nodes: seq<ThreadNode>, i: nat, a: nat)
    requires i < |nodes|
    ensures Count(nodes[i], a) <= CountAll(nodes, a)
  {
    if i > 0 {
      CountAt(nodes[1..], i - 1, a);
    }
  }

  lemma {:induction false} CountTwo(nodes: seq<ThreadNode>, i: nat, j: nat, a: nat)
    requires i < j < |nodes|
    ensures Count(nodes[i], a) + Count(nodes[j], a) <= CountAll(nodes, a)
  {
    if i == 0 {
      CountAt(nodes[1..], j - 1, a);
    } else {
      CountTwo(nodes[1..], i - 1, j - 1, a);
    }
  }

  /** What `Build` returns is well shaped. */
  lemma {:induction false} BuildShaped(cs: seq<Container>, placed: seq<nat>, id: nat)
    requires Forest(cs) && Placed(cs, placed) && |placed| <= USIZE_MAX && id < |cs|
    ensures Build(cs, id).Some? ==> Shaped(Build(cs, id).value)
    decreases |cs| - Depths(cs)[id], 0
  {
    hide Acyclic, ChildrenPointBack, ParentsListChildren, Path, Shaped, ShapedAll, HeldUnder;
    ChildDepths(cs, id);
    var level := Depths(cs)[id] + 1;
    var built := BuildAll(cs, cs[id].children, level);
    BuildAllShaped(cs, placed, cs[id].children, level);
    forall a: nat ensures CountAll(built, a) <= 1 {
      BuildAllCount(cs, placed, cs[id].children, level, a);
    }
    SortShapes(built);
    PrunedShaped(cs[id].article, SortBy(built, OLDER));
  }

  lemma PrunedShaped(article: Option<nat>, children: seq<ThreadNode>)
    requires article.Some? ==> article.value < USIZE_MAX
    requires ShapedAll(children)
    requires forall i, j :: 0 <= i < j < |children| ==> children[i].FirstArticle() < children[j].FirstArticle()
    ensures Pruned(article, children).Some? ==> Shaped(Pruned(article, children).value)
  {
  }

  lemma SortShapes(built: seq<ThreadNode>)
    requires ShapedAll(built) && forall a: nat :: CountAll(built, a) <= 1
    ensures ShapedAll(SortBy(built, OLDER))
    ensures forall i, j :: 0 <= i < j < |built| ==>
              SortBy(built, OLDER)[i].FirstArticle() < SortBy(built, OLDER)[j].FirstArticle()
  {
    SortKeeps(built, OLDER);
    var children := SortBy(built, OLDER);
    PermutationMembers(built, children);
    forall k | 0 <= k < |children| ensures Shaped(children[k]) {
      assert children[k] in built;
    }
    forall a: nat ensures CountAll(children, a) <= 1 {
      SortCount(built, a);
    }
    forall i, j | 0 <= i < j < |children| ensures children[i].FirstArticle() < children[j].FirstArticle() {
      StrictlyIncreasing(children, i, j);
    }
  }

  lemma {:induction false} BuildAllShaped(cs: seq<Container>, placed: seq<nat>, ids: seq<nat>, level: nat)
    requires Forest(cs) && Placed(cs, placed) && |placed| <= USIZE_MAX && level <= |cs|
    requires forall id :: id in ids ==> id < |cs| && Depths(cs)[id] == level
    ensures ShapedAll(BuildAll(cs, ids, level))
    decreases |cs| - level, |ids|
  {
    if ids != [] {
      assert ids[0] in ids;
      BuildShaped(cs, placed, ids[0]);
      assert forall id :: id in ids[1..] ==> id in ids;
      BuildAllShaped(cs, placed, ids[1..], level);
    }
  }

  /** A container builds to something exactly when it holds an article, and the tree's first
      article is its oldest. */
  lemma BuildOldest(cs: seq<Container>, placed: seq<nat>, id: nat)
    requires Forest(cs) && Placed(cs, placed) && |placed| <= USIZE_MAX && id < |cs|
    ensures Build(cs, id).Some? <==> Oldest(cs, id).Some?
    ensures Build(cs, id).Some? ==> Oldest(cs, id) == Some(Build(cs, id).value.FirstArticle())
  {
    hide Acyclic, ChildrenPointBack, ParentsListChildren, Placed, Build, HeldUnder, Shaped, Holds;
    BuildShaped(cs, placed, id);
    var found := Oldest(cs, id);
    if Build(cs, id).Some? {
      var node := Build(cs, id).value;
      ShapedHasArticle(node);
      FirstIsLeast(node, 0);
      BuildCount(cs, placed, id, node.FirstArticle());
      HeldBelow(cs, placed, id, node.FirstArticle());
      if found.Some? {
        HeldBelow(cs, placed, id, found.value);
        BuildCount(cs, placed, id, found.value);
        FirstIsLeast(node, found.value);
      }
    } else if found.Some? {
      HeldBelow(cs, placed, id, found.value);
      BuildCount(cs, placed, id, found.value);
    }
  }

  lemma HeldBelow(cs: seq<Container>, placed: seq<nat>, id: nat, a: nat)
    requires Forest(cs) && Placed(cs, placed) && id < |cs|
    ensures (exists x :: 0 <= x < |cs| && Holds(cs, id, x) && cs[x].article == Some(a)) <==> HeldUnder(cs, placed, id, a)
  {
    if a < |placed| {
      HoldsIsOnPath(cs, id, placed[a]);
    }
  }

  // ----- the built tree keeps the ancestors -----

  /** The records held by some containers, in order. */
  ghost function ArticlesOn(cs: seq<Container>, ids: seq<nat>): seq<nat>
    requires forall k :: 0 <= k < |ids| ==> ids[k] < |cs|
  {
    if ids == [] then []
    else (if cs[ids[0]].article.Some? then [cs[ids[0]].article.value] else []) + ArticlesOn(cs, ids[1..])
  }

  /** Two children of the container hold an article somewhere. */
  ghost predicate Forks(cs: seq<Container>, id: nat)
    requires Forest(cs) && id < |cs|
  {
    TwoLive(cs, cs[id].children)
  }

  ghost predicate TwoLive(cs: seq<Container>, ids: seq<nat>)
    requires Acyclic(cs)
  {
    exists i, j :: 0 <= i < j < |ids| && Oldest(cs, ids[i]).Some? && Oldest(cs, ids[j]).Some?
  }

  /** The records held at or below a container. */
  ghost function HeldSet(cs: seq<Container>, placed: seq<nat>, id: nat): set<nat>
    requires Forest(cs) && Placed(cs, placed)
  {
    set a: nat | a < |placed| && HeldUnder(cs, placed, id, a)
  }

  /** The node a container is worth, if it is worth one: an article's own, or an empty one where replies to
      something missing come together. It has the container's article and the records below it. */
  ghost function NodeAt(cs: seq<Container>, placed: seq<nat>, id: nat): seq<Level>
    requires Forest(cs) && Placed(cs, placed) && id < |cs|
  {
    if cs[id].article.Some? || Forks(cs, id) then [Level(cs[id].article, HeldSet(cs, placed, id))] else []
  }

  /** The nodes that some containers are worth. */
  ghost function NodesOn(cs: seq<Container>, placed: seq<nat>, ids: seq<nat>): seq<Level>
    requires Forest(cs) && Placed(cs, placed) && forall k :: 0 <= k < |ids| ==> ids[k] < |cs|
  {
    if ids == [] then [] else NodeAt(cs, placed, ids[0]) + NodesOn(cs, placed, ids[1..])
  }

  lemma {:induction false} SpineIffCount(node: ThreadNode, a: nat)
    ensures Spine(node, a).Some? <==> Count(node, a) > 0
    decreases node, 0
  {
    SpineAmongIffCount(node.children, a);
  }

  lemma {:induction false} SpineAmongIffCount(nodes: seq<ThreadNode>, a: nat)
    ensures SpineAmong(nodes, a).Some? <==> CountAll(nodes, a) > 0
    decreases nodes, 1
  {
    if nodes != [] {
      SpineIffCount(nodes[0], a);
      SpineAmongIffCount(nodes[1..], a);
    }
  }

  lemma {:induction false} SpineAmongUnique(nodes: seq<ThreadNode>, i: nat, a: nat)
    requires i < |nodes| && Spine(nodes[i], a).Some? && CountAll(nodes, a) <= 1
    ensures SpineAmong(nodes, a) == Spine(nodes[i], a)
  {
    SpineIffCount(nodes[0], a);
    SpineIffCount(nodes[i], a);
    if i > 0 {
      CountTwo(nodes, 0, i, a);
      SpineAmongUnique(nodes[1..], i - 1, a);
    }
  }

  lemma {:induction false} BuildAllMember(cs: seq<Container>, ids: seq<nat>, level: nat, id: nat)
    requires Forest(cs) && level <= |cs|
    requires forall x :: x in ids ==> x < |cs| && Depths(cs)[x] == level
    requires id in ids && Build(cs, id).Some?
    ensures Build(cs, id).value in BuildAll(cs, ids, level)
  {
    assert ids[0] in ids && forall x :: x in ids[1..] ==> x in ids;
    if id != ids[0] {
      BuildAllMember(cs, ids[1..], level, id);
    }
  }

  lemma TwoLiveStep(cs: seq<Container>, ids: seq<nat>)
    requires Acyclic(cs) && ids != []
    ensures TwoLive(cs, ids) <==>
              TwoLive(cs, ids[1..])
              || (Oldest(cs, ids[0]).Some? && exists k :: 0 <= k < |ids[1..]| && Oldest(cs, ids[1..][k]).Some?)
  {
    hide Oldest;
    var rest := ids[1..];
    if i, j :| 0 <= i < j < |ids| && Oldest(cs, ids[i]).Some? && Oldest(cs, ids[j]).Some? {
      assert rest[j - 1] == ids[j];
      assert i > 0 ==> rest[i - 1] == ids[i];
    }
    if i, j :| 0 <= i < j < |rest| && Oldest(cs, rest[i]).Some? && Oldest(cs, rest[j]).Some? {
      assert ids[i + 1] == rest[i] && ids[j + 1] == rest[j];
    }
    if k :| 0 <= k < |rest| && Oldest(cs, ids[0]).Some? && Oldest(cs, rest[k]).Some? {
      assert ids[k + 1] == rest[k];
    }
  }

  /** As many trees come of some containers as there are that hold an article. */
  lemma {:induction false} BuildAllLive(cs: seq<Container>, placed: seq<nat>, ids: seq<nat>, level: nat)
    requires Forest(cs) && Placed(cs, placed) && |placed| <= USIZE_MAX && level <= |cs|
    requires forall id :: id in ids ==> id < |cs| && Depths(cs)[id] == level
    ensures BuildAll(cs, ids, level) != [] <==> exists k :: 0 <= k < |ids| && Oldest(cs, ids[k]).Some?
    ensures |BuildAll(cs, ids, level)| >= 2 <==> TwoLive(cs, ids)
    decreases |ids|
  {
    hide Acyclic, ChildrenPointBack, ParentsListChildren, Placed, Oldest, Build, TwoLive;
    if ids != [] {
      var rest := ids[1..];
      assert ids[0] in ids && forall id :: id in rest ==> id in ids;
      BuildOldest(cs, placed, ids[0]);
      BuildAllLive(cs, placed, rest, level);
      TwoLiveStep(cs, ids);
      assert forall k :: 0 <= k < |rest| ==> rest[k] == ids[k + 1];
    } else {
      NoneLive(cs);
    }
  }

  lemma NoneLive(cs: seq<Container>)
    requires Acyclic(cs)
    ensures !TwoLive(cs, [])
  {
  }

  lemma PrunedSpine(article: Option<nat>, children: seq<ThreadNode>, a: nat)
    requires article != Some(a) && SpineAmong(children, a).Some?
    ensures Pruned(article, children).Some?
    ensures var node := Pruned(article, children).value;
            Spine(node, a) ==
            if article.Some? || |children| >= 2 then Some([Level(article, Records(node))] + SpineAmong(children, a).value)
            else SpineAmong(children, a)
  {
    if |children| == 1 {
      assert SpineAmong(children[1..], a) == None;
    }
  }

  lemma BuildRecords(cs: seq<Container>, placed: seq<nat>, id: nat)
    requires Forest(cs) && Placed(cs, placed) && id < |cs| && Build(cs, id).Some?
    ensures Records(Build(cs, id).value) == HeldSet(cs, placed, id)
  {
    hide Forest, Placed, HeldUnder, Build, Bag, Count;
    var node := Build(cs, id).value;
    forall a: nat ensures a in Records(node) <==> a in HeldSet(cs, placed, id) {
      BagCounts(node, a);
      BuildCount(cs, placed, id, a);
      HeldPlaced(cs, placed, id, a);
    }
  }

  lemma HeldPlaced(cs: seq<Container>, placed: seq<nat>, id: nat, a: nat)
    requires Forest(cs) && Placed(cs, placed)
    ensures HeldUnder(cs, placed, id, a) ==> a < |placed|
  {
  }

  /** In the tree of `id`, the nodes down to record `a` are the containers on the path from `id` to where
      `a` is that are worth one. */
  lemma {:induction false} BuildSpine(cs: seq<Container>, placed: seq<nat>, id: nat, a: nat)
    requires Forest(cs) && Placed(cs, placed) && |placed| <= USIZE_MAX && id < |cs| && HeldUnder(cs, placed, id, a)
    ensures Depths(cs)[id] <= Depths(cs)[placed[a]]
    ensures Build(cs, id).Some?
    ensures Spine(Build(cs, id).value, a) == Some(NodesOn(cs, placed, Path(cs, placed[a])[Depths(cs)[id]..]))
    decreases |cs| - Depths(cs)[id]
  {
    var x := placed[a];
    OnPath(cs, id, x);
    ChildDepths(cs, id);
    var ids := Path(cs, x)[Depths(cs)[id]..];
    if x != id {
      hide ChildrenPointBack, ParentsListChildren, Acyclic, Forks;
      NextOnPath(cs, id, x);
      var c := Path(cs, x)[Depths(cs)[id] + 1];
      BuildSpine(cs, placed, c, a);
      SpineThroughChild(cs, placed, id, c, a);
      PathPrefix(cs, x, Depths(cs)[id] + 1);
      assert ids[1..] == Path(cs, x)[Depths(cs)[c]..];
      assert ids[0] == id;
    } else {
      SpineOfOwn(cs, placed, id, a);
      NodesButLast(cs, placed, [], id);
      assert ids == [id] && [] + [id] == [id];
      var own := Level(Some(a), HeldSet(cs, placed, id));
      assert NodesOn(cs, placed, []) == [] && [] + [own] == [own];
      assert NodesOn(cs, placed, ids) == [own];
    }
  }

  lemma SpineOfOwn(cs: seq<Container>, placed: seq<nat>, id: nat, a: nat)
    requires Forest(cs) && Placed(cs, placed) && id < |cs| && cs[id].article == Some(a)
    ensures Build(cs, id).Some?
    ensures Spine(Build(cs, id).value, a) == Some([Level(Some(a), HeldSet(cs, placed, id))])
  {
    hide Forest, Placed, HeldUnder, HeldSet, Records;
    BuildOwn(cs, id);
    BuildRecords(cs, placed, id);
  }

  lemma BuildOwn(cs: seq<Container>, id: nat)
    requires Forest(cs) && id < |cs| && cs[id].article.Some?
    ensures Build(cs, id).Some? && Build(cs, id).value.article == cs[id].article
  {
  }

  lemma SpineThroughChild(cs: seq<Container>, placed: seq<nat>, id: nat, c: nat, a: nat)
    requires Forest(cs) && Placed(cs, placed) && |placed| <= USIZE_MAX
    requires id < |cs| && HeldUnder(cs, placed, id, a) && placed[a] != id
    requires c in cs[id].children && c < |cs| && Build(cs, c).Some? && Spine(Build(cs, c).value, a).Some?
    ensures Build(cs, id).Some?
    ensures Spine(Build(cs, id).value, a) ==
            Some(NodeAt(cs, placed, id) + Spine(Build(cs, c).value, a).value)
  {
    hide ChildrenPointBack, ParentsListChildren, Acyclic, Path, HeldUnder, Placed, Spine, SpineAmong, Pruned, CountAll, HeldSet,
      Records, Forks, Build, Bag;
    HeldElsewhere(cs, placed, id, a);
    var children := BuiltChildren(cs, id);
    BuiltFromChildren(cs, placed, id);
    ChildSpine(cs, placed, id, c, a);
    PrunedSpine(cs[id].article, children, a);
    BuildRecords(cs, placed, id);
    assert [] + Spine(Build(cs, c).value, a).value == Spine(Build(cs, c).value, a).value;
  }

  /** The trees of a container's children, in order. */
  ghost function BuiltChildren(cs: seq<Container>, id: nat): seq<ThreadNode>
    requires Forest(cs) && id < |cs|
  {
    ChildDepths(cs, id);
    SortBy(BuildAll(cs, cs[id].children, Depths(cs)[id] + 1), OLDER)
  }

  lemma BuiltFromChildren(cs: seq<Container>, placed: seq<nat>, id: nat)
    requires Forest(cs) && Placed(cs, placed) && |placed| <= USIZE_MAX && id < |cs|
    ensures Build(cs, id) == Pruned(cs[id].article, BuiltChildren(cs, id))
    ensures |BuiltChildren(cs, id)| >= 2 <==> Forks(cs, id)
  {
    hide ChildrenPointBack, ParentsListChildren, Acyclic, Placed, Pruned, TwoLive, SortBy;
    ChildDepths(cs, id);
    var level := Depths(cs)[id] + 1;
    BuildAllLive(cs, placed, cs[id].children, level);
    SortKeeps(BuildAll(cs, cs[id].children, level), OLDER);
  }

  lemma ChildSpine(cs: seq<Container>, placed: seq<nat>, id: nat, c: nat, a: nat)
    requires Forest(cs) && Placed(cs, placed) && id < |cs|
    requires c in cs[id].children && c < |cs| && Build(cs, c).Some? && Spine(Build(cs, c).value, a).Some?
    ensures SpineAmong(BuiltChildren(cs, id), a) == Spine(Build(cs, c).value, a)
  {
    hide ChildrenPointBack, ParentsListChildren, Acyclic, Path, HeldUnder, Placed, Spine, SpineAmong, CountAll, Build;
    ChildDepths(cs, id);
    var level := Depths(cs)[id] + 1;
    var built := BuildAll(cs, cs[id].children, level);
    BuildAllMember(cs, cs[id].children, level, c);
    BuildAllCount(cs, placed, cs[id].children, level, a);
    SortedSpine(built, Build(cs, c).value, a);
  }

  lemma HeldElsewhere(cs: seq<Container>, placed: seq<nat>, id: nat, a: nat)
    requires Forest(cs) && Placed(cs, placed) && id < |cs| && HeldUnder(cs, placed, id, a) && placed[a] != id
    ensures cs[id].article != Some(a)
  {
  }

  lemma SortedSpine(built: seq<ThreadNode>, node: ThreadNode, a: nat)
    requires node in built && Spine(node, a).Some? && CountAll(built, a) <= 1
    ensures SpineAmong(SortBy(built, OLDER), a) == Spine(node, a)
  {
    SortKeeps(built, OLDER);
    SortCount(built, a);
    var children := SortBy(built, OLDER);
    PermutationMembers(built, children);
    var i :| 0 <= i < |children| && children[i] == node;
    SpineAmongUnique(children, i, a);
  }

  /** The records in the nodes are those in the containers. */
  lemma {:induction false} OwnOnNodes(cs: seq<Container>, placed: seq<nat>, ids: seq<nat>)
    requires Forest(cs) && Placed(cs, placed) && forall k :: 0 <= k < |ids| ==> ids[k] < |cs|
    ensures Own(NodesOn(cs, placed, ids)) == ArticlesOn(cs, ids)
  {
    hide Forest, Placed, Forks, HeldSet, Own;
    if ids != [] {
      OwnOnNodes(cs, placed, ids[1..]);
      OwnFront(NodeAt(cs, placed, ids[0]), NodesOn(cs, placed, ids[1..]));
    } else {
      OwnFront([], []);
    }
  }

  lemma OwnFront(front: seq<Level>, rest: seq<Level>)
    requires |front| <= 1
    ensures Own([]) == []
    ensures Own(front + rest) ==
            (if front != [] && front[0].article.Some? then [front[0].article.value] else []) + Own(rest)
  {
    if front == [] {
      assert front + rest == rest && [] + Own(rest) == Own(rest);
    } else {
      assert (front + rest)[1..] == rest;
    }
  }

  /** Containers down to one that holds an article: the last node is its own. */
  lemma {:induction false} NodesButLast(cs: seq<Container>, placed: seq<nat>, ids: seq<nat>, id: nat)
    requires Forest(cs) && Placed(cs, placed) && forall k :: 0 <= k < |ids| ==> ids[k] < |cs|
    requires id < |cs| && cs[id].article.Some?
    ensures NodesOn(cs, placed, ids + [id]) == NodesOn(cs, placed, ids) + NodeAt(cs, placed, id)
    ensures |NodeAt(cs, placed, id)| == 1
  {
    hide Forest, Placed, NodeAt;
    OneNode(cs, placed, id);
    var all := ids + [id];
    if ids == [] {
      assert all == [id] && all[1..] == [];
      assert NodeAt(cs, placed, id) + [] == [] + NodeAt(cs, placed, id);
    } else {
      NodesButLast(cs, placed, ids[1..], id);
      assert all[1..] == ids[1..] + [id] && all[0] == ids[0];
    }
  }

  lemma OneNode(cs: seq<Container>, placed: seq<nat>, id: nat)
    requires Forest(cs) && Placed(cs, placed) && id < |cs| && cs[id].article.Some?
    ensures |NodeAt(cs, placed, id)| == 1
  {
  }

  // ----- the built tree is no deeper than the arena -----

  lemma {:induction false} WithinMore(node: ThreadNode, levels: nat, more: nat)
    requires Within(node, levels) && levels <= more
    ensures Within(node, more)
  {
    forall k | 0 <= k < |node.children| ensures more > 0 && Within(node.children[k], more - 1) {
      WithinMore(node.children[k], levels - 1, more - 1);
    }
  }

  ghost predicate NoDeeper(cs: seq<Container>, id: nat, limit: nat)
    requires Forest(cs)
  {
    forall x :: 0 <= x < |cs| && id in Path(cs, x) ==> Depths(cs)[x] <= limit
  }

  lemma {:induction false} BuildWithin(cs: seq<Container>, id: nat, limit: nat)
    requires Forest(cs) && id < |cs| && NoDeeper(cs, id, limit)
    ensures Depths(cs)[id] <= limit
    ensures Build(cs, id).Some? ==> Within(Build(cs, id).value, limit - Depths(cs)[id])
    decreases |cs| - Depths(cs)[id], 0
  {
    hide ChildrenPointBack, ParentsListChildren, Acyclic, Path, NoDeeper, Within, Pruned;
    ChildDepths(cs, id);
    var level := Depths(cs)[id] + 1;
    forall c | c in cs[id].children ensures NoDeeper(cs, c, limit) {
      NoDeeperChild(cs, id, limit, c);
    }
    BuildAllWithin(cs, cs[id].children, level, limit);
    PrunedWithin(cs[id].article, BuildAll(cs, cs[id].children, level), level, limit);
    NoDeeperSelf(cs, id, limit);
  }

  lemma NoDeeperSelf(cs: seq<Container>, id: nat, limit: nat)
    requires Forest(cs) && id < |cs| && NoDeeper(cs, id, limit)
    ensures Depths(cs)[id] <= limit
  {
  }

  lemma NoDeeperChild(cs: seq<Container>, id: nat, limit: nat, c: nat)
    requires Forest(cs) && id < |cs| && NoDeeper(cs, id, limit) && c in cs[id].children
    ensures NoDeeper(cs, c, limit)
  {
    forall x | 0 <= x < |cs| && c in Path(cs, x) ensures Depths(cs)[x] <= limit {
      ParentOnPath(cs, id, c, x);
    }
  }

  lemma PrunedWithin(article: Option<nat>, built: seq<ThreadNode>, level: nat, limit: nat)
    requires 0 < level
    requires forall node :: node in built ==> level <= limit && Within(node, limit - level)
    ensures level - 1 <= limit && Pruned(article, SortBy(built, OLDER)).Some? ==>
              Within(Pruned(article, SortBy(built, OLDER)).value, limit - (level - 1))
  {
    SortKeeps(built, OLDER);
    var children := SortBy(built, OLDER);
    PermutationMembers(built, children);
    if children != [] {
      assert children[0] in built;
    }
    var levels := limit - (level - 1);
    if |children| == 1 {
      WithinMore(children[0], limit - level, levels);
    }
    forall k | 0 <= k < |children| ensures levels > 0 && Within(children[k], levels - 1) {
      assert children[k] in built;
    }
  }

  lemma {:induction false} BuildAllWithin(cs: seq<Container>, ids: seq<nat>, level: nat, limit: nat)
    requires Forest(cs) && level <= |cs|
    requires forall id :: id in ids ==> id < |cs| && Depths(cs)[id] == level && NoDeeper(cs, id, limit)
    ensures forall node :: node in BuildAll(cs, ids, level) ==> level <= limit && Within(node, limit - level)
    decreases |cs| - level, |ids|
  {
    if ids != [] {
      assert ids[0] in ids && forall id :: id in ids[1..] ==> id in ids;
      BuildWithin(cs, ids[0], limit);
      BuildAllWithin(cs, ids[1..], level, limit);
    }
  }
}
