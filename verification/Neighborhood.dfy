/** The part of an investigation graph around one node: breadth-first search, against distances. */
module Neighborhood {

  datatype Node = Node(id: string, kind: string, text: string, risk: int)
  datatype Edge = Edge(source: string, target: string, kind: string, weight: nat)
  datatype Graph = Graph(nodes: seq<Node>, edges: seq<Edge>)

  // ---- Distance ---------------------------------------------------------------------------------

  /** An edge joins the two ids, in either direction; they need not be nodes. */
  ghost predicate Linked(edges: seq<Edge>, x: string, y: string) {
    exists i :: 0 <= i < |edges| && Joins(edges[i], x, y)
  }

  predicate Joins(e: Edge, x: string, y: string) {
    (e.source == x && e.target == y) || (e.source == y && e.target == x)
  }

  /** A walk: ids one after the other, each linked to the next. */
  ghost predicate Walk(edges: seq<Edge>, w: seq<string>) {
    w != [] && forall i :: 0 < i < |w| ==> Linked(edges, w[i - 1], w[i])
  }

  /** The two ids are at most `depth` edges apart. */
  ghost predicate Within(edges: seq<Edge>, focus: string, id: string, depth: nat) {
    exists w :: Walk(edges, w) && w[0] == focus && w[|w| - 1] == id && |w| <= depth + 1
  }

  lemma WithinZero(edges: seq<Edge>, focus: string, id: string)
    ensures Within(edges, focus, id, 0) <==> id == focus
  {
    assert Walk(edges, [focus]) && [focus][0] == focus;
  }

  lemma WithinGrows(edges: seq<Edge>, focus: string, id: string, depth: nat)
    requires Within(edges, focus, id, depth)
    ensures Within(edges, focus, id, depth + 1)
  {
    hide Linked, Walk;
  }

  lemma WithinLink(edges: seq<Edge>, focus: string, x: string, y: string, depth: nat)
    requires Within(edges, focus, x, depth) && Linked(edges, x, y)
    ensures Within(edges, focus, y, depth + 1)
  {
    hide Linked;
    var w :| Walk(edges, w) && w[0] == focus && w[|w| - 1] == x && |w| <= depth + 1;
    var w' := w + [y];
    assert Walk(edges, w');
    assert w'[0] == focus && w'[|w'| - 1] == y;
  }

  /** One step further: the ids one edge further away. */
  lemma WithinStep(edges: seq<Edge>, focus: string, y: string, depth: nat) returns (x: string)
    requires Within(edges, focus, y, depth + 1) && !Within(edges, focus, y, depth)
    ensures Within(edges, focus, x, depth) && Linked(edges, x, y)
    ensures depth > 0 ==> !Within(edges, focus, x, depth - 1)
  {
    hide Linked;
    var w :| Walk(edges, w) && w[0] == focus && w[|w| - 1] == y && |w| <= depth + 2;
    assert |w| == depth + 2;
    var front := w[..|w| - 1];
    x := front[|front| - 1];
    assert Walk(edges, front) && front[0] == focus;
    assert Linked(edges, w[|w| - 2], w[|w| - 1]);
    if depth > 0 && Within(edges, focus, x, depth - 1) { WithinLink(edges, focus, x, y, depth - 1); }
  }

  // ---- The search ----------------------------------------------------------------------------------

  type Adjacency = map<string, seq<string>>

  function Neighbours(adj: Adjacency, x: string): seq<string> {
    if x in adj then adj[x] else []
  }

  ghost predicate Describes(adj: Adjacency, edges: seq<Edge>) {
    forall x, y :: y in Neighbours(adj, x) <==> Linked(edges, x, y)
  }

  function Added(adj: Adjacency, x: string, y: string): Adjacency { adj[x := Neighbours(adj, x) + [y]] }

  lemma LinkedSnoc(edges: seq<Edge>, e: Edge, x: string, y: string)
    ensures Linked(edges + [e], x, y) <==> Linked(edges, x, y) || Joins(e, x, y)
  {
    hide Joins;
    var all := edges + [e];
    assert all[|edges|] == e;
    if Linked(edges, x, y) {
      var i :| 0 <= i < |edges| && Joins(edges[i], x, y);
      assert all[i] == edges[i];
    }
  }

  lemma DescribesSnoc(adj: Adjacency, edges: seq<Edge>, e: Edge)
    requires Describes(adj, edges)
    ensures Describes(Added(Added(adj, e.source, e.target), e.target, e.source), edges + [e])
  {
    hide Linked;
    var adj' := Added(Added(adj, e.source, e.target), e.target, e.source);
    forall x, y ensures y in Neighbours(adj', x) <==> Linked(edges + [e], x, y) {
      LinkedSnoc(edges, e, x, y);
      assert y in Neighbours(adj', x) <==> y in Neighbours(adj, x) || Joins(e, x, y);
    }
  }

  method BuildAdjacency(edges: seq<Edge>) returns (adj: Adjacency)
    ensures Describes(adj, edges)
  {
    hide Describes;
    adj := map[];
    NothingLinked();
    assert edges[..0] == [];
    for i := 0 to |edges|
      invariant Describes(adj, edges[..i])
    {
      var e := edges[i];
      DescribesSnoc(adj, edges[..i], e);
      assert edges[..i + 1] == edges[..i] + [e];
      adj := Added(adj, e.source, e.target);
      adj := Added(adj, e.target, e.source);
    }
    assert edges[..|edges|] == edges;
  }

  lemma NothingLinked()
    ensures Describes(map[], [])
  {}

  /** The ids kept are those within a distance; the front holds those at that very distance. */
  ghost predicate Kept(edges: seq<Edge>, focus: string, keep: set<string>, depth: nat) {
    forall y :: y in keep <==> Within(edges, focus, y, depth)
  }

  ghost predicate AtFront(edges: seq<Edge>, focus: string, front: seq<string>, depth: nat) {
    forall y :: y in front <==> Within(edges, focus, y, depth) && (depth > 0 ==> !Within(edges, focus, y, depth - 1))
  }

  /** Ids linked to one of the first ids of the front. */
  ghost predicate FromSome(edges: seq<Edge>, front: seq<string>, n: nat, y: string)
    requires n <= |front|
  {
    exists k :: 0 <= k < n && Linked(edges, front[k], y)
  }

  /** One round of the search: everything linked to the front that was not kept before. */
  lemma RoundIsExact(edges: seq<Edge>, focus: string, keep: set<string>, front: seq<string>, depth: nat,
                     keep': set<string>, next: seq<string>)
    requires Kept(edges, focus, keep, depth) && AtFront(edges, focus, front, depth)
    requires forall y :: y in next <==> y !in keep && FromSome(edges, front, |front|, y)
    requires keep' == keep + set y | y in next
    ensures Kept(edges, focus, keep', depth + 1) && AtFront(edges, focus, next, depth + 1)
  {
    hide Linked, Within;
    forall y ensures y in next <==> Within(edges, focus, y, depth + 1) && !Within(edges, focus, y, depth) {
      if y in next {
        var k :| 0 <= k < |front| && Linked(edges, front[k], y);
        assert front[k] in front;
        WithinLink(edges, focus, front[k], y, depth);
      }
      if Within(edges, focus, y, depth + 1) && !Within(edges, focus, y, depth) {
        var x := WithinStep(edges, focus, y, depth);
        assert x in front;
        var k :| 0 <= k < |front| && front[k] == x;
        assert FromSome(edges, front, |front|, y);
      }
    }
    forall y ensures y in keep' <==> Within(edges, focus, y, depth + 1) {
      if Within(edges, focus, y, depth) { WithinGrows(edges, focus, y, depth); }
    }
  }

  method Round(adj: Adjacency, keep: set<string>, front: seq<string>, ghost edges: seq<Edge>)
    returns (keep': set<string>, next: seq<string>)
    requires Describes(adj, edges)
    ensures keep' == keep + set y | y in next
    ensures forall y :: y in next <==> y !in keep && FromSome(edges, front, |front|, y)
  {
    hide Linked;
    keep' := keep;
    next := [];
    for k := 0 to |front|
      invariant keep' == keep + set y | y in next
      invariant forall y :: y in next <==> y !in keep && FromSome(edges, front, k, y)
    {
      var ys := Neighbours(adj, front[k]);
      ghost var before := next;
      for m := 0 to |ys|
        invariant keep' == keep + set y | y in next
        invariant forall y :: y in next <==> y in before || (y !in keep && y in ys[..m])
      {
        if ys[m] !in keep' {
          keep' := keep' + {ys[m]};
          next := next + [ys[m]];
        }
        assert ys[..m + 1] == ys[..m] + [ys[m]];
      }
      assert ys[..|ys|] == ys;
      forall y ensures FromSome(edges, front, k + 1, y) <==> FromSome(edges, front, k, y) || y in ys {}
    }
  }

  function KeptNodes(nodes: seq<Node>, keep: set<string>): seq<Node> {
    if nodes == [] then []
    else KeptNodes(nodes[..|nodes| - 1], keep) + if nodes[|nodes| - 1].id in keep then [nodes[|nodes| - 1]] else []
  }

  function KeptEdges(edges: seq<Edge>, keep: set<string>): seq<Edge> {
    if edges == [] then []
    else
      var e := edges[|edges| - 1];
      KeptEdges(edges[..|edges| - 1], keep) + if e.source in keep && e.target in keep then [e] else []
  }

  /** Depth as the query uses it: at least one. */
  function Depth(depth: int): nat { if depth < 1 then 1 else depth }

  /** The neighbourhood is the nodes within the distance of the focus, distance taken over all edge
      ends, and the edges between ids within it - both in their old order. */
  method Neighbourhood(g: Graph, focus: string, depth: int) returns (out: Graph, ghost keep: set<string>)
    ensures Kept(g.edges, focus, keep, Depth(depth))
    ensures out == Graph(KeptNodes(g.nodes, keep), KeptEdges(g.edges, keep))
    ensures forall n :: n in out.nodes <==> n in g.nodes && Within(g.edges, focus, n.id, Depth(depth))
    ensures forall e :: e in out.edges <==>
              e in g.edges && Within(g.edges, focus, e.source, Depth(depth)) && Within(g.edges, focus, e.target, Depth(depth))
  {
    hide Describes, Within, KeptNodes, KeptEdges;
    var adj := BuildAdjacency(g.edges);
    var kept: set<string> := {focus};
    var front := [focus];
    forall y ensures Within(g.edges, focus, y, 0) <==> y == focus { WithinZero(g.edges, focus, y); }
    for d := 0 to Depth(depth)
      invariant Kept(g.edges, focus, kept, d) && AtFront(g.edges, focus, front, d)
    {
      var kept', next := Round(adj, kept, front, g.edges);
      RoundIsExact(g.edges, focus, kept, front, d, kept', next);
      kept, front := kept', next;
    }
    out := Pick(g, kept);
    keep := kept;
    NeighbourhoodIsWithin(g, focus, Depth(depth), kept);
  }

  method Pick(g: Graph, keep: set<string>) returns (out: Graph)
    ensures out == Graph(KeptNodes(g.nodes, keep), KeptEdges(g.edges, keep))
  {
    var nodes: seq<Node> := [];
    for i := 0 to |g.nodes|
      invariant nodes == KeptNodes(g.nodes[..i], keep)
    {
      assert g.nodes[..i + 1][..i] == g.nodes[..i];
      if g.nodes[i].id in keep {
        nodes := nodes + [g.nodes[i]];
      }
    }
    assert g.nodes[..|g.nodes|] == g.nodes;
    var edges: seq<Edge> := [];
    for i := 0 to |g.edges|
      invariant edges == KeptEdges(g.edges[..i], keep)
    {
      assert g.edges[..i + 1][..i] == g.edges[..i];
      if g.edges[i].source in keep && g.edges[i].target in keep {
        edges := edges + [g.edges[i]];
      }
    }
    assert g.edges[..|g.edges|] == g.edges;
    out := Graph(nodes, edges);
  }

  /** What is picked: exactly the elements whose ids are kept. */
  lemma {:induction false} KeptAre(nodes: seq<Node>, keep: set<string>, n: Node)
    ensures n in KeptNodes(nodes, keep) <==> n in nodes && n.id in keep
    decreases |nodes|
  {
    if nodes != [] {
      KeptAre(nodes[..|nodes| - 1], keep, n);
      assert nodes == nodes[..|nodes| - 1] + [nodes[|nodes| - 1]];
    }
  }

  lemma {:induction false} KeptEdgesAre(edges: seq<Edge>, keep: set<string>, e: Edge)
    ensures e in KeptEdges(edges, keep) <==> e in edges && e.source in keep && e.target in keep
    decreases |edges|
  {
    if edges != [] {
      KeptEdgesAre(edges[..|edges| - 1], keep, e);
      assert edges == edges[..|edges| - 1] + [edges[|edges| - 1]];
    }
  }

  /** So a node is in the neighbourhood exactly when it is a node within the distance, and an edge
      exactly when both its ends are within it. */
  lemma NeighbourhoodIsWithin(g: Graph, focus: string, depth: nat, keep: set<string>)
    requires Kept(g.edges, focus, keep, depth)
    ensures forall n :: n in KeptNodes(g.nodes, keep) <==> n in g.nodes && Within(g.edges, focus, n.id, depth)
    ensures forall e :: e in KeptEdges(g.edges, keep) <==>
              e in g.edges && Within(g.edges, focus, e.source, depth) && Within(g.edges, focus, e.target, depth)
  {
    hide Within, KeptNodes, KeptEdges;
    forall n ensures n in KeptNodes(g.nodes, keep) <==> n in g.nodes && Within(g.edges, focus, n.id, depth) {
      KeptAre(g.nodes, keep, n);
    }
    forall e ensures e in KeptEdges(g.edges, keep) <==>
        e in g.edges && Within(g.edges, focus, e.source, depth) && Within(g.edges, focus, e.target, depth)
    {
      KeptEdgesAre(g.edges, keep, e);
    }
  }
}
