/** A graph query: neighbourhood, clustering, and the limits on what is returned. */
module GraphQuery {
  import opened Neighborhood
  import opened Clustering

  // ---- Sorting ------------------------------------------------------------------------------------

  /** A total preorder. */
  ghost predicate Orders<T(!new)>(le: (T, T) -> bool) {
    (forall a, b :: le(a, b) || le(b, a)) && forall a, b, c :: le(a, b) && le(b, c) ==> le(a, c)
  }

  ghost predicate Sorted<T>(xs: seq<T>, le: (T, T) -> bool) {
    forall i, j :: 0 <= i < j < |xs| ==> le(xs[i], xs[j])
  }

  function Insert<T>(xs: seq<T>, x: T, le: (T, T) -> bool): seq<T> {
    if xs == [] || !le(xs[0], x) then [x] + xs else [xs[0]] + Insert(xs[1..], x, le)
  }

  lemma {:induction false} InsertIsPermutation<T>(xs: seq<T>, x: T, le: (T, T) -> bool)
    ensures multiset(Insert(xs, x, le)) == multiset(xs) + multiset{x}
    decreases |xs|
  {
    if xs != [] && le(xs[0], x) {
      InsertIsPermutation(xs[1..], x, le);
      assert xs == [xs[0]] + xs[1..];
    }
  }

  lemma SortedCons<T>(first: T, rest: seq<T>, le: (T, T) -> bool)
    requires Sorted(rest, le) && forall y <- multiset(rest) :: le(first, y)
    ensures Sorted([first] + rest, le)
  {
    forall i | 0 <= i < |rest| ensures le(first, rest[i]) {
      assert rest[i] in multiset(rest);
    }
  }

  lemma {:induction false} InsertSorts<T(!new)>(xs: seq<T>, x: T, le: (T, T) -> bool)
    requires Orders(le) && Sorted(xs, le)
    ensures Sorted(Insert(xs, x, le), le)
    decreases |xs|
  {
    if xs != [] && le(xs[0], x) {
      InsertSorts(xs[1..], x, le);
      InsertIsPermutation(xs[1..], x, le);
      SortedCons(xs[0], Insert(xs[1..], x, le), le);
    } else if xs != [] {
      forall y | y in multiset(xs) ensures le(x, y) {
        var i :| 0 <= i < |xs| && xs[i] == y;
        assert le(xs[0], y);
      }
      SortedCons(x, xs, le);
    }
  }

  /** The sort of the standard library: any sorted permutation, equals in no fixed order. */
  method Sort<T(!new)>(xs: seq<T>, le: (T, T) -> bool) returns (sorted: seq<T>)
    requires Orders(le)
    ensures Sorted(sorted, le) && multiset(sorted) == multiset(xs)
  {
    hide Insert, Orders, Sorted;
    sorted := [];
    NothingSorted(le);
    for i := 0 to |xs|
      invariant Sorted(sorted, le) && multiset(sorted) == multiset(xs[..i])
    {
      InsertIsPermutation(sorted, xs[i], le);
      InsertSorts(sorted, xs[i], le);
      assert xs[..i + 1] == xs[..i] + [xs[i]];
      sorted := Insert(sorted, xs[i], le);
    }
    assert xs[..|xs|] == xs;
  }

  lemma NothingSorted<T>(le: (T, T) -> bool)
    ensures Sorted([], le)
  {}

  /** Strings in the order of their characters. */
  predicate AtMost(a: string, b: string) {
    a == "" || (b != "" && (a[0] < b[0] || (a[0] == b[0] && AtMost(a[1..], b[1..]))))
  }

  lemma {:induction false} AtMostIsTotal(a: string, b: string)
    ensures AtMost(a, b) || AtMost(b, a)
    ensures AtMost(a, b) && AtMost(b, a) ==> a == b
    decreases |a|
  {
    if a != "" && b != "" {
      AtMostIsTotal(a[1..], b[1..]);
      assert a == [a[0]] + a[1..] && b == [b[0]] + b[1..];
    }
  }

  lemma {:induction false} AtMostIsTransitive(a: string, b: string, c: string)
    requires AtMost(a, b) && AtMost(b, c)
    ensures AtMost(a, c)
    decreases |a|
  {
    if a != "" && a[0] == b[0] == c[0] { AtMostIsTransitive(a[1..], b[1..], c[1..]); }
  }

  /** Riskiest first, and by id among equal risks. */
  predicate RiskFirst(a: OutNode, b: OutNode) { a.risk > b.risk || (a.risk == b.risk && AtMost(a.id, b.id)) }

  predicate HeavyFirst(a: Edge, b: Edge) { a.weight >= b.weight }

  lemma RiskOrders()
    ensures Orders(RiskFirst)
  {
    hide AtMost;
    forall a: OutNode, b: OutNode ensures RiskFirst(a, b) || RiskFirst(b, a) { AtMostIsTotal(a.id, b.id); }
    forall a: OutNode, b: OutNode, c: OutNode | RiskFirst(a, b) && RiskFirst(b, c) ensures RiskFirst(a, c) {
      if a.risk == b.risk == c.risk { AtMostIsTransitive(a.id, b.id, c.id); }
    }
  }

  lemma HeavyOrders()
    ensures Orders(HeavyFirst)
  {}

  ghost predicate DistinctOut(a: seq<OutNode>) { forall i, j :: 0 <= i < j < |a| ==> a[i].id != a[j].id }

  /** With distinct ids the order leaves no choice: any two sorted permutations are the same. */
  lemma {:induction false} SortingIsUnique(a: seq<OutNode>, b: seq<OutNode>)
    requires Sorted(a, RiskFirst) && Sorted(b, RiskFirst) && multiset(a) == multiset(b) && DistinctOut(a)
    ensures a == b
    decreases |a|
  {
    hide RiskFirst, Sorted, DistinctOut;
    SameLength(a, b);
    if a != [] {
      FirstsAreSame(a, b);
      SortedTail(a, RiskFirst);
      SortedTail(b, RiskFirst);
      DistinctTail(a);
      TailsMatch(a, b);
      SortingIsUnique(a[1..], b[1..]);
      assert a == [a[0]] + a[1..] && b == [b[0]] + b[1..];
    }
  }

  lemma DistinctTail(a: seq<OutNode>)
    requires a != [] && DistinctOut(a)
    ensures DistinctOut(a[1..])
  {}

  lemma TailIs<T>(a: seq<T>)
    requires a != []
    ensures multiset(a[1..]) == multiset(a) - multiset{a[0]}
  {
    assert a == [a[0]] + a[1..];
  }

  lemma TailsMatch<T>(a: seq<T>, b: seq<T>)
    requires a != [] && b != [] && a[0] == b[0] && multiset(a) == multiset(b)
    ensures multiset(a[1..]) == multiset(b[1..])
  {
    TailIs(a);
    TailIs(b);
  }

  lemma SameLength<T>(a: seq<T>, b: seq<T>)
    requires multiset(a) == multiset(b)
    ensures |a| == |b|
  {
    assert |a| == |multiset(a)| == |multiset(b)| == |b|;
  }

  lemma SortedTail<T>(xs: seq<T>, le: (T, T) -> bool)
    requires xs != [] && Sorted(xs, le)
    ensures Sorted(xs[1..], le)
  {}

  lemma FirstsAreSame(a: seq<OutNode>, b: seq<OutNode>)
    requires a != [] && b != [] && Sorted(a, RiskFirst) && Sorted(b, RiskFirst) && multiset(a) == multiset(b)
    requires DistinctOut(a)
    ensures a[0] == b[0]
  {
    hide AtMost;
    assert b[0] in multiset(a) && a[0] in multiset(b);
    var i :| 0 <= i < |a| && a[i] == b[0];
    var j :| 0 <= j < |b| && b[j] == a[0];
    if i > 0 {
      assert RiskFirst(a[0], b[0]) && (j == 0 || RiskFirst(b[0], a[0]));
      AtMostIsTotal(a[0].id, b[0].id);
    }
  }

  lemma RemoveOne<T>(xs: seq<T>, i: nat)
    requires i < |xs|
    ensures multiset(xs[..i] + xs[i + 1..]) == multiset(xs) - multiset{xs[i]}
  {
    assert xs == xs[..i] + [xs[i]] + xs[i + 1..];
  }

  /** Where the last element of a sequence stands in a permutation of it. */
  lemma LastElsewhere<T>(a: seq<T>, b: seq<T>) returns (i: nat)
    requires a != [] && multiset(a) == multiset(b)
    ensures i < |b| && b[i] == a[|a| - 1] && multiset(a[..|a| - 1]) == multiset(b[..i] + b[i + 1..])
  {
    var last := |a| - 1;
    assert a[last] in multiset(b);
    i :| 0 <= i < |b| && b[i] == a[last];
    RemoveOne(b, i);
    RemoveOne(a, last);
    assert a[..last] + a[last + 1..] == a[..last];
  }

  // ---- The edges of the merged map -----------------------------------------------------------------

  lemma EdgeWeightsSnoc(edges: seq<Edge>, e: Edge, order: seq<string>, k: string, weights: map<string, nat>)
    requires EdgeWeights(edges) == SumOver(order, weights) && k in weights && e.weight == weights[k]
    ensures EdgeWeights(edges + [e]) == SumOver(order + [k], weights)
  {
    assert (edges + [e])[..|edges|] == edges && (order + [k])[..|order|] == order;
  }

  lemma NoWeights(weights: map<string, nat>)
    ensures EdgeWeights([]) == SumOver([], weights) && EnumeratesKeys([], {})
  {}

  /** The entries of a map that are not still to do. */
  function Part(em: map<string, Edge>, todo: set<string>): map<string, Edge> {
    map k | k in em && k !in todo :: em[k]
  }

  lemma PartStep(em: map<string, Edge>, todo: set<string>, k: string)
    requires AllFiled(em) && k in em && k in todo
    ensures multiset(Part(em, todo - {k}).Values) == multiset(Part(em, todo).Values) + multiset{em[k]}
  {
    var before, after := Part(em, todo), Part(em, todo - {k});
    forall j | j in before ensures before[j] != em[k] {
      assert Filed(em[j], j) && Filed(em[k], k);
    }
    assert after == before[k := em[k]];
    assert after.Values == before.Values + {em[k]} by {
      assert after[k] == em[k];
      forall e | e in before.Values ensures e in after.Values {
        var j :| j in before && before[j] == e;
        assert after[j] == e;
      }
    }
  }

  lemma PartEnds(em: map<string, Edge>)
    ensures Part(em, em.Keys) == map[] && Part(em, {}) == em
  {}

  /** The edges of a map, each once, in some order. */
  method EdgesOf(em: map<string, Edge>) returns (edges: seq<Edge>)
    requires AllFiled(em)
    ensures EdgeWeights(edges) == Total(Weights(em)) && multiset(edges) == multiset(em.Values)
  {
    hide Total, EdgeWeights, SumOver, EnumeratesKeys, AllFiled, Filed, Part;
    edges := [];
    ghost var order: seq<string> := [];
    ghost var weights := Weights(em);
    NoWeights(weights);
    PartEnds(em);
    var todo := em.Keys;
    assert em.Keys - todo == {};
    while todo != {}
      invariant todo <= em.Keys && EnumeratesKeys(order, em.Keys - todo)
      invariant multiset(edges) == multiset(Part(em, todo).Values)
      invariant EdgeWeights(edges) == SumOver(order, weights)
      decreases |todo|
    {
      var k :| k in todo;
      EdgeWeightsSnoc(edges, em[k], order, k, weights);
      EnumeratesSnoc(order, em.Keys, todo, k);
      PartStep(em, todo, k);
      edges := edges + [em[k]];
      order := order + [k];
      todo := todo - {k};
    }
    assert em.Keys - todo == em.Keys;
    assert weights.Keys == em.Keys;
    SumIsTotal(order, weights);
  }

  lemma {:induction false} WeightsOfPermutation(a: seq<Edge>, b: seq<Edge>)
    requires multiset(a) == multiset(b)
    ensures EdgeWeights(a) == EdgeWeights(b)
    decreases |a|
  {
    if a == [] {
      assert |multiset(b)| == |b|;
    } else {
      var i := LastElsewhere(a, b);
      WeightsOfPermutation(a[..|a| - 1], b[..i] + b[i + 1..]);
      TakeOut(b, i);
    }
  }

  lemma {:induction false} TakeOut(b: seq<Edge>, i: nat)
    requires i < |b|
    ensures EdgeWeights(b) == EdgeWeights(b[..i] + b[i + 1..]) + b[i].weight
    decreases |b|
  {
    var last := |b| - 1;
    if i < last {
      TakeOut(b[..last], i);
      assert (b[..i] + b[i + 1..])[..last - 1] == b[..last][..i] + b[..last][i + 1..];
    } else {
      assert b[..i] + b[i + 1..] == b[..last];
    }
  }

  // ---- The result ------------------------------------------------------------------------------------

  datatype Result = Result(nodes: seq<OutNode>, edges: seq<Edge>, clustered: bool, truncated: bool)

  function NodeLimit(n: int): nat { if n <= 0 then 800 else if n > 2000 then 2000 else n }
  function EdgeLimit(n: int): nat { if n <= 0 then 3000 else if n > 10000 then 10000 else n }

  function IdsOf(nodes: seq<OutNode>): set<string> { set i | 0 <= i < |nodes| :: nodes[i].id }

  predicate Visible(e: Edge, ids: set<string>) { e.source in ids && e.target in ids }

  function VisibleEdges(edges: seq<Edge>, ids: set<string>): seq<Edge> {
    if edges == [] then []
    else (if Visible(edges[0], ids) then [edges[0]] else []) + VisibleEdges(edges[1..], ids)
  }

  function FirstOf<T>(s: seq<T>, n: nat): seq<T> { if |s| > n then s[..n] else s }

  /** The loop over the edges: those between visible nodes, up to the limit. */
  method CutEdges(edges: seq<Edge>, ids: set<string>, limit: nat) returns (out: seq<Edge>, full: bool)
    requires limit > 0
    ensures out == FirstOf(VisibleEdges(edges, ids), limit)
    ensures full <==> |VisibleEdges(edges, ids)| >= limit
    ensures |out| <= limit && forall e <- out :: e in edges && Visible(e, ids)
  {
    hide VisibleEdges;
    out := [];
    assert edges[0..] == edges;
    NothingVisible(ids);
    for i := 0 to |edges|
      invariant |out| < limit && VisibleEdges(edges, ids) == out + VisibleEdges(edges[i..], ids)
      invariant forall e <- out :: e in edges && Visible(e, ids)
    {
      var e := edges[i];
      VisibleStep(edges[i..], ids);
      assert edges[i..][1..] == edges[i + 1..];
      if Visible(e, ids) {
        ghost var rest := VisibleEdges(edges[i + 1..], ids);
        assert out + ([e] + rest) == out + [e] + rest;
        out := out + [e];
        if |out| >= limit {
          return out, true;
        }
      }
    }
    assert edges[|edges|..] == [];
    full := false;
  }

  lemma VisibleStep(edges: seq<Edge>, ids: set<string>)
    requires edges != []
    ensures VisibleEdges(edges, ids) ==
            (if Visible(edges[0], ids) then [edges[0]] else []) + VisibleEdges(edges[1..], ids)
  {}

  lemma NothingVisible(ids: set<string>)
    ensures VisibleEdges([], ids) == []
  {}

  function AllOut(nodes: seq<Node>): (outs: seq<OutNode>)
    ensures |outs| == |nodes| && forall i :: 0 <= i < |nodes| ==> outs[i] == AsOut(nodes[i])
  {
    seq(|nodes|, i requires 0 <= i < |nodes| => AsOut(nodes[i]))
  }

  /** The cut: at most so many nodes and edges, no edge without both its nodes, and if nothing is
      reported as truncated, nothing was left out here. */
  method Limit(nodes: seq<OutNode>, edges: seq<Edge>, maxNodes: nat, maxEdges: nat)
    returns (ns: seq<OutNode>, es: seq<Edge>, truncated: bool)
    requires maxEdges > 0
    ensures ns == FirstOf(nodes, maxNodes) && |ns| <= maxNodes && |es| <= maxEdges
    ensures es == FirstOf(VisibleEdges(edges, IdsOf(ns)), maxEdges)
    ensures forall e <- es :: e in edges && exists m, n :: m in ns && n in ns && m.id == e.source && n.id == e.target
    ensures truncated <==> |nodes| > maxNodes || |VisibleEdges(edges, IdsOf(ns))| >= maxEdges
    ensures !truncated ==> ns == nodes && es == VisibleEdges(edges, IdsOf(nodes))
  {
    hide VisibleEdges;
    ns := if |nodes| > maxNodes then nodes[..maxNodes] else nodes;
    var ids := IdsOf(ns);
    var full;
    es, full := CutEdges(edges, ids, maxEdges);
    truncated := |nodes| > maxNodes || full;
    forall e | e in es ensures exists m, n :: m in ns && n in ns && m.id == e.source && n.id == e.target {
      var i :| 0 <= i < |ns| && ns[i].id == e.source;
      var j :| 0 <= j < |ns| && ns[j].id == e.target;
      assert ns[i] in ns && ns[j] in ns;
    }
  }

  /** A clustered graph before its cuts: one output node for every group, riskiest first, and every
      merged edge once, heaviest first. */
  ghost predicate Clusters(g: Graph, key: string, kind: string -> LabelKind,
                           ids: Ids, all: seq<OutNode>, edges: seq<Edge>)
  {
    var groups := GroupAll(g.nodes, ExpandOf(g.nodes, key), kind);
    && Sorted(all, RiskFirst) && Sorted(edges, HeavyFirst)
    && (exists order :: EnumeratesKeys(order, groups.Keys) && IsListed(all, order, groups, ExpandOf(g.nodes, key)))
    && multiset(edges) == multiset(MergeAll(g.edges, ids).Values)
  }

  /** A permutation of the output nodes of the groups. */
  ghost predicate IsListed(all: seq<OutNode>, order: seq<string>, groups: Groups, expand: Expand) {
    exists outs :: Listed(outs, order, groups, expand) && multiset(all) == multiset(outs)
  }

  /** Clustering with its own cut, which keeps the riskiest nodes. */
  method ClusterGraph(g: Graph, maxNodes: nat, key: string, kind: string -> LabelKind)
    returns (nodes: seq<OutNode>, edges: seq<Edge>, ghost all: seq<OutNode>, ghost ids: Ids)
    ensures |nodes| <= maxNodes && Sorted(nodes, RiskFirst) && Sorted(edges, HeavyFirst)
    ensures Clusters(g, key, kind, ids, all, edges) && nodes == FirstOf(all, maxNodes)
    ensures forall i, j :: 0 <= i < |nodes| && |nodes| <= j < |all| ==> RiskFirst(nodes[i], all[j])
    ensures DistinctIds(g.nodes, kind) ==> Counts(all) == |g.nodes|
    ensures DistinctIds(g.nodes, kind) ==>
              forall n <- g.nodes ::
                n.id in ids && ids[n.id] == MappedId(n, ExpandOf(g.nodes, key), kind) && ids[n.id] in IdsOf(all)
    ensures EdgeWeights(edges) == CrossWeight(g.edges, ids) && forall e <- multiset(edges) :: e.source != e.target
  {
    hide *;
    var outs, map_, em;
    ghost var order;
    outs, map_, em, order := ClusterAll(g, key, kind);
    RiskOrders();
    HeavyOrders();
    var sorted := Sort(outs, RiskFirst);
    MergingKeepsWeight(g.edges, map_);
    var merged := EdgesOf(em);
    edges := Sort(merged, HeavyFirst);
    nodes := FirstOf(sorted, maxNodes);
    FrontIsSorted(sorted, maxNodes);
    FrontIsShort(sorted, maxNodes);
    CutKeepsRiskiest(sorted, maxNodes);
    all, ids := sorted, map_;
    ClustersAre(g, key, kind, ids, all, edges, outs, order);
    if DistinctIds(g.nodes, kind) {
      AllListed(g, ExpandOf(g.nodes, key), kind, outs, order);
      SameIds(outs, all);
      CountsOfPermutation(outs, all);
    }
    WeightsOfPermutation(merged, edges);
    NoLoops(em, edges);
  }

  lemma ClustersAre(g: Graph, key: string, kind: string -> LabelKind, ids: Ids, all: seq<OutNode>, edges: seq<Edge>,
                    outs: seq<OutNode>, order: seq<string>)
    requires EnumeratesKeys(order, GroupAll(g.nodes, ExpandOf(g.nodes, key), kind).Keys)
    requires Listed(outs, order, GroupAll(g.nodes, ExpandOf(g.nodes, key), kind), ExpandOf(g.nodes, key))
    requires multiset(all) == multiset(outs) && Sorted(all, RiskFirst) && Sorted(edges, HeavyFirst)
    requires multiset(edges) == multiset(MergeAll(g.edges, ids).Values)
    ensures Clusters(g, key, kind, ids, all, edges)
  {
    hide GroupAll, EnumeratesKeys, Listed, Sorted, MergeAll, ExpandOf;
    assert IsListed(all, order, GroupAll(g.nodes, ExpandOf(g.nodes, key), kind), ExpandOf(g.nodes, key));
  }

  lemma NoLoops(em: map<string, Edge>, edges: seq<Edge>)
    requires AllFiled(em) && multiset(edges) == multiset(em.Values)
    ensures forall e <- multiset(edges) :: e.source != e.target
  {
    forall e | e in multiset(edges) ensures e.source != e.target {
      assert e in em.Values;
      var k :| k in em && em[k] == e;
      assert Filed(em[k], k);
    }
  }

  lemma SameIds(a: seq<OutNode>, b: seq<OutNode>)
    requires multiset(a) == multiset(b)
    ensures IdsOf(a) == IdsOf(b)
  {
    IdsWithin(a, b);
    IdsWithin(b, a);
  }

  lemma IdsWithin(a: seq<OutNode>, b: seq<OutNode>)
    requires multiset(a) == multiset(b)
    ensures IdsOf(a) <= IdsOf(b)
  {
    forall id | id in IdsOf(a) ensures id in IdsOf(b) {
      var i :| 0 <= i < |a| && a[i].id == id;
      assert a[i] in multiset(b);
      var j :| 0 <= j < |b| && b[j] == a[i];
    }
  }

  lemma {:induction false} CountsOfPermutation(a: seq<OutNode>, b: seq<OutNode>)
    requires multiset(a) == multiset(b)
    ensures Counts(a) == Counts(b)
    decreases |a|
  {
    if a == [] {
      assert |multiset(b)| == |b|;
    } else {
      var i := LastElsewhere(a, b);
      CountsOfPermutation(a[..|a| - 1], b[..i] + b[i + 1..]);
      TakeNode(b, i);
    }
  }

  lemma {:induction false} TakeNode(b: seq<OutNode>, i: nat)
    requires i < |b|
    ensures Counts(b) == Counts(b[..i] + b[i + 1..]) + b[i].count
    decreases |b|
  {
    var last := |b| - 1;
    if i < last {
      TakeNode(b[..last], i);
      assert (b[..i] + b[i + 1..])[..last - 1] == b[..last][..i] + b[..last][i + 1..];
    } else {
      assert b[..i] + b[i + 1..] == b[..last];
    }
  }

  /** What the cut drops comes after all that is kept: no dropped node is riskier than a kept one. */
  lemma CutKeepsRiskiest(all: seq<OutNode>, n: nat)
    requires Sorted(all, RiskFirst)
    ensures forall i, j :: 0 <= i < |FirstOf(all, n)| && |FirstOf(all, n)| <= j < |all| ==>
              RiskFirst(FirstOf(all, n)[i], all[j])
  {
    hide RiskFirst;
  }

  lemma AllListed(g: Graph, expand: Expand, kind: string -> LabelKind, outs: seq<OutNode>, order: seq<string>)
    requires DistinctIds(g.nodes, kind)
    requires EnumeratesKeys(order, GroupAll(g.nodes, expand, kind).Keys)
    requires Listed(outs, order, GroupAll(g.nodes, expand, kind), expand)
    ensures forall n <- g.nodes :: MappedId(n, expand, kind) in IdsOf(outs)
  {
    hide GroupAll, OutOf, MappedId, DistinctIds, GroupKey;
    forall n | n in g.nodes ensures MappedId(n, expand, kind) in IdsOf(outs) {
      OutputOfNode(g.nodes, expand, kind, n);
      var k := GroupKey(n, expand, kind);
      assert k in order;
      var i :| 0 <= i < |order| && order[i] == k;
      assert outs[i].id == MappedId(n, expand, kind);
    }
  }

  datatype Query = Query(focus: string, depth: int, maxNodes: int, maxEdges: int, clustering: bool, expand: string)

  /** The graph a query looks at: all of it, or the neighbourhood of the focus. */
  ghost predicate Focused(g: Graph, q: Query, part: Graph) {
    if q.focus == "" then part == g
    else exists keep :: Kept(g.edges, q.focus, keep, Depth(q.depth)) && part == Graph(KeptNodes(g.nodes, keep), KeptEdges(g.edges, keep))
  }

  /** What a query returns, exactly, for what it looks at: clustered, riskiest nodes and heaviest
      edges first, when asked for and larger than the limit, and in the old order otherwise; of that
      the first nodes, and the first edges between them; reported as truncated exactly when an
      unclustered query lost nodes or the edges reached their limit. */
  ghost predicate Returns(q: Query, kind: string -> LabelKind, r: Result, part: Graph,
                          nodes: seq<OutNode>, edges: seq<Edge>, ids: Ids)
  {
    var maxNodes, maxEdges := NodeLimit(q.maxNodes), EdgeLimit(q.maxEdges);
    && (r.clustered <==> q.clustering && |part.nodes| > maxNodes)
    && (!r.clustered ==> nodes == AllOut(part.nodes) && edges == part.edges)
    && (r.clustered ==> Clusters(part, q.expand, kind, ids, nodes, edges))
    && r.nodes == FirstOf(nodes, maxNodes)
    && r.edges == FirstOf(VisibleEdges(edges, IdsOf(r.nodes)), maxEdges)
    && (r.truncated <==>
         (!r.clustered && |part.nodes| > maxNodes) || |VisibleEdges(edges, IdsOf(r.nodes))| >= maxEdges)
  }

  ghost predicate IsAnswer(g: Graph, q: Query, kind: string -> LabelKind, r: Result) {
    exists part, nodes, edges, ids :: Focused(g, q, part) && Returns(q, kind, r, part, nodes, edges, ids)
  }

  /** A query is answered exactly as specified, within its limits and without dangling edges. */
  method Answer(g: Graph, q: Query, kind: string -> LabelKind) returns (r: Result)
    ensures |r.nodes| <= NodeLimit(q.maxNodes) <= 2000 && |r.edges| <= EdgeLimit(q.maxEdges) <= 10000
    ensures forall e <- r.edges ::
              exists m, n :: m in r.nodes && n in r.nodes && m.id == e.source && n.id == e.target
    ensures r.clustered ==> q.clustering && Sorted(r.nodes, RiskFirst)
    ensures IsAnswer(g, q, kind, r)
  {
    hide DistinctIds, VisibleEdges, Within, ClusterKey, Clusters, Kept, KeptNodes, KeptEdges, Counts, CrossWeight,
      EdgeWeights, IdsOf, RiskFirst, Sorted;
    var maxNodes, maxEdges := NodeLimit(q.maxNodes), EdgeLimit(q.maxEdges);
    var part := g;
    if q.focus != "" {
      ghost var keep;
      part, keep := Neighbourhood(g, q.focus, q.depth);
    }
    assert Focused(g, q, part);
    var nodes, edges := AllOut(part.nodes), part.edges;
    ghost var all, ids := nodes, map[];
    var clustered := q.clustering && |part.nodes| > maxNodes;
    if clustered {
      nodes, edges, all, ids := ClusterGraph(part, maxNodes, q.expand, kind);
    }
    var first, visible, truncated := Limit(nodes, edges, maxNodes, maxEdges);
    r := Result(first, visible, clustered, truncated);
    assert Returns(q, kind, r, part, all, edges, ids);
  }

  lemma FrontIsShort<T>(s: seq<T>, n: nat)
    ensures |FirstOf(s, n)| <= n && FirstOf(FirstOf(s, n), n) == FirstOf(s, n)
  {}

  lemma FrontIsSorted(all: seq<OutNode>, n: nat)
    ensures Sorted(all, RiskFirst) ==> Sorted(FirstOf(all, n), RiskFirst)
  {
    hide RiskFirst;
  }

  lemma {:induction false} PickIsPart(nodes: seq<Node>, keep: set<string>, i: nat) returns (j: nat)
    requires i < |KeptNodes(nodes, keep)|
    ensures i <= j < |nodes| && nodes[j] == KeptNodes(nodes, keep)[i]
    ensures forall m :: 0 <= m < i ==> exists l :: 0 <= l < j && nodes[l] == KeptNodes(nodes, keep)[m]
    decreases |nodes|
  {
    var front := nodes[..|nodes| - 1];
    var kept := KeptNodes(front, keep);
    if i < |kept| {
      j := PickIsPart(front, keep, i);
      forall m | 0 <= m < i ensures exists l :: 0 <= l < j && nodes[l] == KeptNodes(nodes, keep)[m] {
        var l :| 0 <= l < j && front[l] == kept[m];
        assert nodes[l] == front[l];
      }
    } else {
      j := |nodes| - 1;
      forall m | 0 <= m < i ensures exists l :: 0 <= l < j && nodes[l] == KeptNodes(nodes, keep)[m] {
        var l := PickIsPart(front, keep, m);
        assert nodes[l] == front[l];
      }
      KeptIsShort(front, keep);
    }
  }

  lemma {:induction false} KeptIsShort(nodes: seq<Node>, keep: set<string>)
    ensures |KeptNodes(nodes, keep)| <= |nodes|
    decreases |nodes|
  {
    if nodes != [] { KeptIsShort(nodes[..|nodes| - 1], keep); }
  }

  lemma PickKeepsDistinct(nodes: seq<Node>, keep: set<string>, kind: string -> LabelKind)
    requires DistinctIds(nodes, kind)
    ensures DistinctIds(KeptNodes(nodes, keep), kind)
  {
    hide KeptNodes, ClusterKey;
    var kept := KeptNodes(nodes, keep);
    forall i, j | 0 <= i < j < |kept| ensures kept[i].id != kept[j].id {
      var b := PickIsPart(nodes, keep, j);
      var a :| 0 <= a < b && nodes[a] == kept[i];
    }
    forall i, j | 0 <= i < |kept| && 0 <= j < |kept|
      ensures kept[i].id != ClusterKey(kept[j], kind) && kept[i].id != "cluster:" + ClusterKey(kept[j], kind)
    {
      var a := PickIsPart(nodes, keep, i);
      var b := PickIsPart(nodes, keep, j);
      assert nodes[a].id != ClusterKey(nodes[b], kind);
    }
  }
}
