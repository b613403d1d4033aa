/** What the answer to a graph query shows, said of the answer and the graph alone. */
module GraphAnswers {
  import opened Neighborhood
  import opened Clustering
  import opened GraphQuery

  function MostNodes(q: Query): nat {
    if q.maxNodes <= 0 then 800 else if q.maxNodes > 2000 then 2000 else q.maxNodes
  }

  function MostEdges(q: Query): nat {
    if q.maxEdges <= 0 then 3000 else if q.maxEdges > 10000 then 10000 else q.maxEdges
  }

  /** A node with this id is shown. */
  ghost predicate Shown(r: Result, id: string) { exists i :: 0 <= i < |r.nodes| && r.nodes[i].id == id }

  lemma ShownIff(r: Result, id: string)
    ensures Shown(r, id) <==> id in IdsOf(r.nodes)
  {}

  lemma {:induction false} VisibleIff(edges: seq<Edge>, ids: set<string>, e: Edge)
    ensures e in VisibleEdges(edges, ids) <==> e in edges && e.source in ids && e.target in ids
    decreases |edges|
  {
    if edges != [] {
      VisibleIff(edges[1..], ids, e);
      assert edges == [edges[0]] + edges[1..];
    }
  }

  lemma FrontIs<T>(s: seq<T>, n: nat)
    ensures FirstOf(s, n) <= s && |FirstOf(s, n)| == if |s| < n then |s| else n
  {}

  /** The parts of an answer that do not depend on where its nodes come from. */
  lemma ReturnedEdges(q: Query, kind: string -> LabelKind, r: Result, part: Graph, nodes: seq<OutNode>, edges: seq<Edge>, ids: Ids)
    requires Returns(q, kind, r, part, nodes, edges, ids)
    ensures |r.nodes| <= MostNodes(q) && |r.edges| <= MostEdges(q)
    ensures forall e <- r.edges :: e in edges && Shown(r, e.source) && Shown(r, e.target)
    ensures |r.edges| < MostEdges(q) ==> forall e <- edges :: Shown(r, e.source) && Shown(r, e.target) ==> e in r.edges
    ensures r.truncated <==> (!r.clustered && |part.nodes| > MostNodes(q)) || |r.edges| == MostEdges(q)
  {
    hide VisibleEdges, IdsOf, Clusters, AllOut, Shown;
    var visible := VisibleEdges(edges, IdsOf(r.nodes));
    FrontIs(nodes, MostNodes(q));
    FrontIs(visible, MostEdges(q));
    forall e: Edge ensures e in visible <==> e in edges && Shown(r, e.source) && Shown(r, e.target) {
      VisibleIff(edges, IdsOf(r.nodes), e);
      ShownIff(r, e.source);
      ShownIff(r, e.target);
    }
  }

  /** Every answer keeps its limits - 800 nodes and 3000 edges unless others are asked for, 2000 and 10000 at
      most - and shows both ends of every edge. */
  lemma AnswerIsBounded(g: Graph, q: Query, kind: string -> LabelKind, r: Result)
    requires IsAnswer(g, q, kind, r)
    ensures |r.nodes| <= MostNodes(q) && |r.edges| <= MostEdges(q)
    ensures forall e <- r.edges :: Shown(r, e.source) && Shown(r, e.target)
  {
    hide Returns, Focused, Shown;
    var part, nodes, edges, ids :| Focused(g, q, part) && Returns(q, kind, r, part, nodes, edges, ids);
    ReturnedEdges(q, kind, r, part, nodes, edges, ids);
  }

  lemma UnclusteredNodes(q: Query, kind: string -> LabelKind, r: Result, part: Graph, nodes: seq<OutNode>, edges: seq<Edge>, ids: Ids)
    requires Returns(q, kind, r, part, nodes, edges, ids)
    ensures r.clustered <==> q.clustering && |part.nodes| > MostNodes(q)
    ensures !r.clustered ==>
              && edges == part.edges && |r.nodes| == (if |part.nodes| < MostNodes(q) then |part.nodes| else MostNodes(q))
              && forall i :: 0 <= i < |r.nodes| ==>
                   var n := part.nodes[i]; r.nodes[i] == OutNode(n.id, n.kind, n.risk, 1, [n.id])
  {
    hide VisibleEdges, IdsOf, Clusters;
    FrontIs(nodes, MostNodes(q));
  }

  /** A query without a focus looks at the whole graph. It is clustered exactly when that is asked for and the
      graph has more nodes than may be shown; otherwise the first nodes are shown as they are, with the edges
      between them, all of these unless their limit is reached, and nothing is left out silently. */
  lemma WholeGraph(g: Graph, q: Query, kind: string -> LabelKind, r: Result)
    requires IsAnswer(g, q, kind, r) && q.focus == ""
    ensures r.clustered <==> q.clustering && |g.nodes| > MostNodes(q)
    ensures !r.clustered ==>
              && |r.nodes| == (if |g.nodes| < MostNodes(q) then |g.nodes| else MostNodes(q))
              && (forall i :: 0 <= i < |r.nodes| ==>
                    var n := g.nodes[i]; r.nodes[i] == OutNode(n.id, n.kind, n.risk, 1, [n.id]))
              && (forall e <- r.edges :: e in g.edges)
              && (|r.edges| < MostEdges(q) ==> forall e <- g.edges :: Shown(r, e.source) && Shown(r, e.target) ==> e in r.edges)
              && (r.truncated <==> |g.nodes| > MostNodes(q) || |r.edges| == MostEdges(q))
  {
    hide Returns, Shown;
    var part, nodes, edges, ids :| Focused(g, q, part) && Returns(q, kind, r, part, nodes, edges, ids);
    ReturnedEdges(q, kind, r, part, nodes, edges, ids);
    UnclusteredNodes(q, kind, r, part, nodes, edges, ids);
  }

  /** A walk of so many edges - one, if less is asked for - leads from the focus to the id. */
  ghost predicate Near(g: Graph, q: Query, id: string) {
    Within(g.edges, q.focus, id, if q.depth < 1 then 1 else q.depth)
  }

  lemma FocusIsNear(g: Graph, q: Query, part: Graph)
    requires Focused(g, q, part) && q.focus != ""
    ensures forall n :: n in part.nodes <==> n in g.nodes && Near(g, q, n.id)
  {
    hide Within, KeptNodes, KeptEdges, Kept;
    var keep :| Kept(g.edges, q.focus, keep, Depth(q.depth)) && part == Graph(KeptNodes(g.nodes, keep), KeptEdges(g.edges, keep));
    NeighbourhoodIsWithin(g, q.focus, Depth(q.depth), keep);
  }

  /** A query with a focus shows nodes of the graph near it, and when nothing is reported as left out, all of
      them. */
  lemma FocusedGraph(g: Graph, q: Query, kind: string -> LabelKind, r: Result, n: Node)
    requires IsAnswer(g, q, kind, r) && q.focus != "" && !r.clustered
    ensures forall i :: 0 <= i < |r.nodes| ==> (exists x :: x in g.nodes && x.id == r.nodes[i].id) && Near(g, q, r.nodes[i].id)
    ensures !r.truncated && n in g.nodes && Near(g, q, n.id) ==> Shown(r, n.id)
  {
    hide Returns, Focused, Near;
    var part, nodes, edges, ids :| Focused(g, q, part) && Returns(q, kind, r, part, nodes, edges, ids);
    ReturnedEdges(q, kind, r, part, nodes, edges, ids);
    UnclusteredNodes(q, kind, r, part, nodes, edges, ids);
    FocusIsNear(g, q, part);
    forall i | 0 <= i < |r.nodes|
      ensures (exists x :: x in g.nodes && x.id == r.nodes[i].id) && Near(g, q, r.nodes[i].id)
    {
      assert part.nodes[i] in part.nodes;
    }
    if !r.truncated && n in g.nodes && Near(g, q, n.id) {
      assert n in part.nodes;
      var i :| 0 <= i < |part.nodes| && part.nodes[i] == n;
      assert |r.nodes| == |part.nodes|;
      assert r.nodes[i].id == n.id;
    }
  }

  // ---- The order of a clustered answer -------------------------------------------------------------

  /** The two texts part at `k`, where the first one ends or has the smaller character. */
  predicate PartAt(a: string, b: string, k: nat) {
    k <= |a| && k <= |b| && a[..k] == b[..k] && (k == |a| || (k < |b| && a[k] < b[k]))
  }

  lemma SameFirst(a: string, b: string, k: nat)
    requires PartAt(a, b, k)
    ensures k > 0 ==> a != "" && b != "" && a[0] == b[0]
  {
    if k > 0 { assert a[..k][0] == b[..k][0]; }
  }

  lemma {:induction false} AtMostIff(a: string, b: string)
    ensures AtMost(a, b) <==> exists k: nat :: PartAt(a, b, k)
    decreases |a|
  {
    if a == "" {
      assert PartAt(a, b, 0);
    } else if b == "" || a[0] != b[0] {
      if b != "" && a[0] < b[0] { assert PartAt(a, b, 0); }
      forall k: nat | PartAt(a, b, k) ensures k == 0 { SameFirst(a, b, k); }
    } else {
      AtMostIff(a[1..], b[1..]);
      forall k: nat | PartAt(a[1..], b[1..], k) ensures PartAt(a, b, k + 1) {
        assert a[..k + 1] == [a[0]] + a[1..][..k] && b[..k + 1] == [b[0]] + b[1..][..k];
      }
      forall k: nat | PartAt(a, b, k) ensures k > 0 && PartAt(a[1..], b[1..], k - 1) {
        if k > 0 { assert a[1..][..k - 1] == a[..k][1..] && b[1..][..k - 1] == b[..k][1..]; }
      }
    }
  }

  /** A clustered answer shows the riskiest output nodes, those of the same risk by id, and the heaviest edges
      first. */
  lemma ClusteredOrder(g: Graph, q: Query, kind: string -> LabelKind, r: Result, i: nat, j: nat)
    requires IsAnswer(g, q, kind, r) && r.clustered
    ensures q.clustering
    ensures i < j < |r.nodes| ==>
              && r.nodes[i].risk >= r.nodes[j].risk
              && (r.nodes[i].risk == r.nodes[j].risk ==> exists k: nat :: PartAt(r.nodes[i].id, r.nodes[j].id, k))
  {
    hide Focused, VisibleEdges, IdsOf, IsListed, EnumeratesKeys, GroupAll, MergeAll, ExpandOf, AtMost;
    var part, nodes, edges, ids :| Focused(g, q, part) && Returns(q, kind, r, part, nodes, edges, ids);
    FrontIs(nodes, MostNodes(q));
    if i < j < |r.nodes| {
      assert RiskFirst(nodes[i], nodes[j]);
      AtMostIff(r.nodes[i].id, r.nodes[j].id);
    }
  }

  lemma {:induction false} VisibleIsPart(edges: seq<Edge>, ids: set<string>, i: nat) returns (j: nat)
    requires i < |VisibleEdges(edges, ids)|
    ensures i <= j < |edges| && edges[j] == VisibleEdges(edges, ids)[i]
    ensures forall m :: 0 <= m < i ==> exists l :: 0 <= l < j && edges[l] == VisibleEdges(edges, ids)[m]
    decreases |edges|
  {
    hide Visible;
    var rest := VisibleEdges(edges[1..], ids);
    var first := if Visible(edges[0], ids) then 1 else 0;
    if i < first {
      j := 0;
    } else {
      var j' := VisibleIsPart(edges[1..], ids, i - first);
      j := j' + 1;
      forall m | 0 <= m < i ensures exists l :: 0 <= l < j && edges[l] == VisibleEdges(edges, ids)[m] {
        if m < first {
          assert edges[0] == VisibleEdges(edges, ids)[m];
        } else {
          var l :| 0 <= l < j' && edges[1..][l] == rest[m - first];
          assert edges[l + 1] == VisibleEdges(edges, ids)[m];
        }
      }
    }
  }

  lemma HeavyEdges(edges: seq<Edge>, ids: set<string>, i: nat, j: nat)
    requires Sorted(edges, HeavyFirst) && i < j < |VisibleEdges(edges, ids)|
    ensures VisibleEdges(edges, ids)[i].weight >= VisibleEdges(edges, ids)[j].weight
  {
    hide VisibleEdges;
    var b := VisibleIsPart(edges, ids, j);
    var a :| 0 <= a < b && edges[a] == VisibleEdges(edges, ids)[i];
    assert HeavyFirst(edges[a], edges[b]);
  }

  lemma ClusteredEdges(g: Graph, q: Query, kind: string -> LabelKind, r: Result, i: nat, j: nat)
    requires IsAnswer(g, q, kind, r) && r.clustered && i < j < |r.edges|
    ensures r.edges[i].weight >= r.edges[j].weight
  {
    hide Focused, VisibleEdges, IdsOf, IsListed, EnumeratesKeys, GroupAll, MergeAll, ExpandOf, HeavyFirst, RiskFirst;
    var part, nodes, edges, ids :| Focused(g, q, part) && Returns(q, kind, r, part, nodes, edges, ids);
    FrontIs(VisibleEdges(edges, IdsOf(r.nodes)), MostEdges(q));
    HeavyEdges(edges, IdsOf(r.nodes), i, j);
  }

  // ---- Clusters --------------------------------------------------------------------------------------------

  /** Which ids stay by themselves: those of a node with a risk of eighty or more, of a finding, and the one
      asked for. */
  lemma ImportantIff(nodes: seq<Node>, key: string, id: string)
    ensures id in ExpandOf(nodes, key).important <==>
              exists n :: n in nodes && n.id == id && (n.risk >= 80 || n.kind == "finding" || n.id == key)
  {
    if n :| n in nodes && n.id == id && (n.risk >= 80 || n.kind == "finding" || n.id == key) {
      var i :| 0 <= i < |nodes| && nodes[i] == n;
      assert Stands(nodes[i], key);
    }
  }

  lemma KeyOf(n: Node, kind: string -> LabelKind)
    ensures n.kind == "ip" ==>
              ClusterKey(n, kind) == match kind(n.text) case Private => "private-ip" case Public => "internet" case NoAddress => "ip"
    ensures n.kind == "flow" ==> ClusterKey(n, kind) == "flows"
    ensures n.kind == "domain" ==> ClusterKey(n, kind) == "domains"
    ensures n.kind == "tls" ==> ClusterKey(n, kind) == "tls"
    ensures n.kind == "interface" ==> ClusterKey(n, kind) == "interfaces"
    ensures n.kind == "file" || n.kind == "hash" || n.kind == "yara" ==> ClusterKey(n, kind) == "files"
    ensures n.kind !in ["ip", "flow", "domain", "tls", "interface", "file", "hash", "yara"] ==> ClusterKey(n, kind) == n.kind
  {}

  /** A node that does not stay by itself goes to the cluster of its kind: addresses apart by where they are,
      files with what is known of them, and kinds without a cluster of their own by their name. */
  lemma ClusterOf(n: Node, expand: Expand, kind: string -> LabelKind)
    requires !Single(n, expand, kind)
    ensures n.kind == "ip" && kind(n.text) == Private ==> MappedId(n, expand, kind) == "cluster:" + "private-ip"
    ensures n.kind == "ip" && kind(n.text) == Public ==> MappedId(n, expand, kind) == "cluster:" + "internet"
    ensures n.kind in ["file", "hash", "yara"] ==> MappedId(n, expand, kind) == "cluster:" + "files"
    ensures n.kind !in ["ip", "flow", "domain", "tls", "interface", "file", "hash", "yara"] ==>
              MappedId(n, expand, kind) == "cluster:" + n.kind
  {
    hide Single, ClusterKey;
    KeyOf(n, kind);
  }

  /** Where an edge end goes: to the output node of its node, and nowhere else when no node has the id. */
  lemma EndIs(ids: Ids, id: string)
    ensures id in ids && ids[id] != "" ==> Lookup(ids, id) == ids[id]
    ensures id !in ids || ids[id] == "" ==> Lookup(ids, id) == id
  {}

  lemma {:induction false} RiskIsReached(xs: seq<Node>)
    ensures MaxRisk(xs) == 0 || exists i :: 0 <= i < |xs| && xs[i].risk == MaxRisk(xs)
    decreases |xs|
  {
    if xs != [] { RiskIsReached(xs[..|xs| - 1]); }
  }

  /** A cluster has the greatest risk of its nodes, or none when all are below zero, their number, and the ids
      of the first hundred. */
  lemma ClusterIs(k: string, xs: seq<Node>, expand: Expand)
    requires |xs| > 1
    ensures var o := OutOf(k, xs, expand);
            && o.id == "cluster:" + k && o.kind == "cluster" && o.count == |xs|
            && (forall n <- xs :: n.risk <= o.risk) && (o.risk == 0 || exists i :: 0 <= i < |xs| && xs[i].risk == o.risk)
            && |o.members| == (if |xs| < 100 then |xs| else 100)
            && forall i :: 0 <= i < |o.members| ==> o.members[i] == xs[i].id
  {
    hide MaxRisk;
    RiskIsReached(xs);
  }
}
