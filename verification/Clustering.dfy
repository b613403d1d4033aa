/** Clustering an investigation graph, and the limits of a query. */
module Clustering {
  import opened Neighborhood

  // ---- Totals over maps -----------------------------------------------------------------------

  /** The sum of the values of a map. */
  ghost function Total(m: map<string, nat>): nat
    decreases |m|
  {
    if m == map[] then 0
    else
      var k :| k in m;
      m[k] + Total(m - {k})
  }

  /** Any key may be taken out first. */
  lemma {:induction false} TotalWithout(m: map<string, nat>, k: string)
    requires k in m
    ensures Total(m) == m[k] + Total(m - {k})
    decreases |m|
  {
    var first :| first in m && Total(m) == m[first] + Total(m - {first});
    if first != k {
      TotalWithout(m - {first}, k);
      TotalWithout(m - {k}, first);
      assert m - {first} - {k} == m - {k} - {first};
    }
  }

  function At(m: map<string, nat>, k: string): nat { if k in m then m[k] else 0 }

  lemma TotalUpdate(m: map<string, nat>, k: string, v: nat)
    ensures Total(m[k := v]) == Total(m) - At(m, k) + v
  {
    TotalWithout(m[k := v], k);
    assert m[k := v] - {k} == m - {k};
    if k in m { TotalWithout(m, k); } else { assert m - {k} == m; }
  }

  lemma TotalOfNone()
    ensures Total(map[]) == 0
  {}

  // ---- Groups ------------------------------------------------------------------------------------

  /** What an address label is: not an address, or one that is private or not. */
  datatype LabelKind = NoAddress | Private | Public

  function ClusterKey(n: Node, kind: string -> LabelKind): string {
    if n.kind == "ip" then
      match kind(n.text)
      case NoAddress => "ip"
      case Private => "private-ip"
      case Public => "internet"
    else if n.kind == "flow" then "flows"
    else if n.kind == "domain" then "domains"
    else if n.kind == "tls" then "tls"
    else if n.kind == "interface" then "interfaces"
    else if n.kind == "file" || n.kind == "hash" || n.kind == "yara" then "files"
    else n.kind
  }

  /** Which ids stay by themselves, and the cluster or node to show in full. */
  datatype Expand = Expand(important: set<string>, key: string)

  predicate Stands(n: Node, key: string) { n.risk >= 80 || n.kind == "finding" || n.id == key }

  function ImportantIds(nodes: seq<Node>, key: string): set<string> {
    set i | 0 <= i < |nodes| && Stands(nodes[i], key) :: nodes[i].id
  }

  function ExpandOf(nodes: seq<Node>, key: string): Expand { Expand(ImportantIds(nodes, key), key) }

  /** Importance goes by id: one important node makes every node of its id so. */
  predicate Important(n: Node, expand: Expand) { n.id in expand.important }

  /** Whether a node stays by itself. */
  predicate Single(n: Node, expand: Expand, kind: string -> LabelKind) {
    Important(n, expand) || ClusterKey(n, kind) == expand.key
  }

  function GroupKey(n: Node, expand: Expand, kind: string -> LabelKind): string {
    if Single(n, expand, kind) then n.id else ClusterKey(n, kind)
  }

  type Groups = map<string, seq<Node>>

  function Members(groups: Groups, k: string): seq<Node> { if k in groups then groups[k] else [] }

  function Grouped(groups: Groups, n: Node, expand: Expand, kind: string -> LabelKind): Groups {
    if Single(n, expand, kind) then groups[n.id := [n]]
    else groups[ClusterKey(n, kind) := Members(groups, ClusterKey(n, kind)) + [n]]
  }

  function GroupAll(nodes: seq<Node>, expand: Expand, kind: string -> LabelKind): Groups {
    if nodes == [] then map[]
    else Grouped(GroupAll(nodes[..|nodes| - 1], expand, kind), nodes[|nodes| - 1], expand, kind)
  }

  /** Node ids are unique, and none is a cluster key or the id of a cluster. */
  ghost predicate DistinctIds(nodes: seq<Node>, kind: string -> LabelKind) {
    && (forall i, j :: 0 <= i < j < |nodes| ==> nodes[i].id != nodes[j].id)
    && (forall i, j :: 0 <= i < |nodes| && 0 <= j < |nodes| ==> nodes[i].id != ClusterKey(nodes[j], kind))
    && (forall i, j :: 0 <= i < |nodes| && 0 <= j < |nodes| ==> nodes[i].id != "cluster:" + ClusterKey(nodes[j], kind))
  }

  lemma DistinctFront(nodes: seq<Node>, kind: string -> LabelKind)
    requires nodes != [] && DistinctIds(nodes, kind)
    ensures DistinctIds(nodes[..|nodes| - 1], kind)
  {
    hide ClusterKey;
  }

  /** Group `k` holds exactly the nodes with that key, and there is a group for every key. */
  ghost predicate Partitions(groups: Groups, nodes: seq<Node>, expand: Expand, kind: string -> LabelKind) {
    && (forall n, k :: k in groups && n in groups[k] ==> n in nodes && GroupKey(n, expand, kind) == k)
    && (forall n :: n in nodes ==> GroupKey(n, expand, kind) in groups && n in groups[GroupKey(n, expand, kind)])
    && (forall k :: k in groups ==> groups[k] != [])
  }

  lemma KeyIsNew(nodes: seq<Node>, expand: Expand, kind: string -> LabelKind, m: Node)
    requires nodes != [] && DistinctIds(nodes, kind) && Single(nodes[|nodes| - 1], expand, kind)
    requires m in nodes[..|nodes| - 1]
    ensures GroupKey(m, expand, kind) != nodes[|nodes| - 1].id
  {
    hide ClusterKey;
    var i :| 0 <= i < |nodes| - 1 && nodes[i] == m;
  }

  lemma SnocMembers(nodes: seq<Node>, front: seq<Node>, last: Node)
    requires nodes == front + [last]
    ensures forall n :: n in nodes <==> n in front || n == last
  {}

  lemma AddSingle(groups: Groups, front: seq<Node>, last: Node, nodes: seq<Node>, expand: Expand, kind: string -> LabelKind)
    requires nodes == front + [last] && Partitions(groups, front, expand, kind) && Single(last, expand, kind)
    requires forall m :: m in front ==> GroupKey(m, expand, kind) != last.id
    ensures last.id !in groups && Partitions(groups[last.id := [last]], nodes, expand, kind)
  {
    hide Single, ClusterKey, GroupKey;
    SnocMembers(nodes, front, last);
    KeyOfSingle(last, expand, kind);
    if last.id in groups { KeysHaveNodes(groups, front, last.id, expand, kind); }
  }

  lemma KeysHaveNodes(groups: Groups, front: seq<Node>, k: string, expand: Expand, kind: string -> LabelKind)
    requires Partitions(groups, front, expand, kind) && k in groups
    ensures exists m :: m in front && GroupKey(m, expand, kind) == k
  {
    hide Single, ClusterKey, GroupKey;
    var m := groups[k][0];
    assert m in groups[k];
    assert m in front && GroupKey(m, expand, kind) == k;
  }

  lemma KeyOfSingle(n: Node, expand: Expand, kind: string -> LabelKind)
    ensures Single(n, expand, kind) ==> GroupKey(n, expand, kind) == n.id
    ensures !Single(n, expand, kind) ==> GroupKey(n, expand, kind) == ClusterKey(n, kind)
  {}

  lemma AddToCluster(groups: Groups, front: seq<Node>, last: Node, nodes: seq<Node>, expand: Expand, kind: string -> LabelKind)
    requires nodes == front + [last] && Partitions(groups, front, expand, kind) && !Single(last, expand, kind)
    ensures var k := ClusterKey(last, kind); Partitions(groups[k := Members(groups, k) + [last]], nodes, expand, kind)
  {
    hide Single, ClusterKey, GroupKey;
    SnocMembers(nodes, front, last);
    KeyOfSingle(last, expand, kind);
    var k := ClusterKey(last, kind);
    SnocMembers(Members(groups, k) + [last], Members(groups, k), last);
  }

  lemma GroupedPartitions(groups: Groups, nodes: seq<Node>, expand: Expand, kind: string -> LabelKind)
    requires nodes != [] && DistinctIds(nodes, kind)
    requires Partitions(groups, nodes[..|nodes| - 1], expand, kind)
    ensures Partitions(Grouped(groups, nodes[|nodes| - 1], expand, kind), nodes, expand, kind)
    ensures Single(nodes[|nodes| - 1], expand, kind) ==> nodes[|nodes| - 1].id !in groups
  {
    hide ClusterKey, Single, DistinctIds, Partitions, GroupKey;
    var front, last := nodes[..|nodes| - 1], nodes[|nodes| - 1];
    if Single(last, expand, kind) {
      forall m | m in front ensures GroupKey(m, expand, kind) != last.id { KeyIsNew(nodes, expand, kind, m); }
      AddSingle(groups, front, last, nodes, expand, kind);
    } else {
      AddToCluster(groups, front, last, nodes, expand, kind);
    }
  }

  /** The nodes are partitioned by their keys, and the sizes of the groups add up. */
  lemma {:induction false} GroupsPartition(nodes: seq<Node>, expand: Expand, kind: string -> LabelKind)
    requires DistinctIds(nodes, kind)
    ensures var groups := GroupAll(nodes, expand, kind);
            && Partitions(groups, nodes, expand, kind)
            && Total(map k | k in groups :: |groups[k]|) == |nodes|
    decreases |nodes|
  {
    hide ClusterKey, Important, DistinctIds, Partitions, Single;
    if nodes == [] {
      NoGroups(expand, kind);
    } else {
      DistinctFront(nodes, kind);
      var front, last := nodes[..|nodes| - 1], nodes[|nodes| - 1];
      GroupsPartition(front, expand, kind);
      var groups := GroupAll(front, expand, kind);
      GroupedPartitions(groups, nodes, expand, kind);
      var sizes := map k | k in groups :: |groups[k]|;
      var groups' := GroupAll(nodes, expand, kind);
      var key := GroupKey(last, expand, kind);
      assert (map k | k in groups' :: |groups'[k]|) == sizes[key := |groups'[key]|];
      TotalUpdate(sizes, key, |groups'[key]|);
    }
  }

  lemma NoGroups(expand: Expand, kind: string -> LabelKind)
    ensures Partitions(GroupAll([], expand, kind), [], expand, kind)
    ensures (map k | k in GroupAll([], expand, kind) :: |GroupAll([], expand, kind)[k]|) == map[]
    ensures Total(map[]) == 0
  {}

  // ---- Output nodes --------------------------------------------------------------------------------

  /** A node of the result: an input node by itself, or a cluster of several. */
  datatype OutNode = OutNode(id: string, kind: string, risk: int, count: nat, members: seq<string>)

  function AsOut(n: Node): OutNode { OutNode(n.id, n.kind, n.risk, 1, [n.id]) }

  function MaxRisk(xs: seq<Node>): (r: int)
    ensures r >= 0 && forall n <- xs :: n.risk <= r
  {
    if xs == [] then 0
    else
      var last := xs[|xs| - 1];
      var r := MaxRisk(xs[..|xs| - 1]);
      assert xs == xs[..|xs| - 1] + [last];
      if last.risk > r then last.risk else r
  }

  function FirstIds(xs: seq<Node>): seq<string> {
    seq(if |xs| < 100 then |xs| else 100, i requires 0 <= i < |xs| => xs[i].id)
  }

  function OutOf(k: string, xs: seq<Node>, expand: Expand): OutNode {
    if |xs| == 1 && (Important(xs[0], expand) || k == xs[0].id || k == expand.key) then AsOut(xs[0])
    else OutNode("cluster:" + k, "cluster", MaxRisk(xs), |xs|, FirstIds(xs))
  }

  /** The output node a node belongs to. */
  function MappedId(n: Node, expand: Expand, kind: string -> LabelKind): string {
    if Single(n, expand, kind) then n.id else "cluster:" + ClusterKey(n, kind)
  }

  lemma ClusterKeyIsNoId(nodes: seq<Node>, kind: string -> LabelKind, m: Node, n: Node)
    requires DistinctIds(nodes, kind) && m in nodes && n in nodes
    ensures m.id != ClusterKey(n, kind) && m.id != "cluster:" + ClusterKey(n, kind)
    ensures m.id == n.id ==> m == n
  {
    hide ClusterKey;
    var i :| 0 <= i < |nodes| && nodes[i] == m;
    var j :| 0 <= j < |nodes| && nodes[j] == n;
  }

  lemma LastInSuffix(nodes: seq<Node>, n: Node)
    requires nodes != []
    ensures n in nodes <==> n in nodes[..|nodes| - 1] || n == nodes[|nodes| - 1]
  {
    SnocMembers(nodes, nodes[..|nodes| - 1], nodes[|nodes| - 1]);
  }

  /** The group of a single node is that node. */
  lemma {:induction false} SinglesAreAlone(nodes: seq<Node>, expand: Expand, kind: string -> LabelKind, n: Node)
    requires DistinctIds(nodes, kind) && n in nodes && Single(n, expand, kind)
    ensures var groups := GroupAll(nodes, expand, kind); n.id in groups && groups[n.id] == [n]
    decreases |nodes|
  {
    hide ClusterKey, Important, DistinctIds, Single;
    var front, last := nodes[..|nodes| - 1], nodes[|nodes| - 1];
    DistinctFront(nodes, kind);
    LastInSuffix(nodes, n);
    ClusterKeyIsNoId(nodes, kind, n, last);
    if n in front { SinglesAreAlone(front, expand, kind, n); }
  }

  /** Each node belongs to the output node of its group, under the id it is mapped to. */
  lemma OutputOfNode(nodes: seq<Node>, expand: Expand, kind: string -> LabelKind, n: Node)
    requires DistinctIds(nodes, kind) && n in nodes
    ensures var groups := GroupAll(nodes, expand, kind); var k := GroupKey(n, expand, kind);
            && k in groups && n in groups[k]
            && OutOf(k, groups[k], expand).id == MappedId(n, expand, kind)
            && OutOf(k, groups[k], expand).count == |groups[k]|
  {
    hide ClusterKey, DistinctIds, Important, MaxRisk, FirstIds, Single, GroupAll, Total;
    GroupsPartition(nodes, expand, kind);
    KeyOfSingle(n, expand, kind);
    var groups := GroupAll(nodes, expand, kind);
    var k := GroupKey(n, expand, kind);
    if Single(n, expand, kind) {
      SinglesAreAlone(nodes, expand, kind, n);
    } else {
      NotSingle(n, expand, kind);
      if |groups[k]| == 1 {
        assert groups[k][0] in groups[k] && groups[k] == [n] by { assert n == groups[k][0]; }
        ClusterKeyIsNoId(nodes, kind, n, n);
      }
    }
  }

  lemma NotSingle(n: Node, expand: Expand, kind: string -> LabelKind)
    requires !Single(n, expand, kind)
    ensures !Important(n, expand) && ClusterKey(n, kind) != expand.key
  {}

  /** Two nodes have the same output id exactly when they are in the same group, so every input
      node belongs to exactly one output node. */
  lemma SameOutputIff(nodes: seq<Node>, expand: Expand, kind: string -> LabelKind, m: Node, n: Node)
    requires DistinctIds(nodes, kind) && m in nodes && n in nodes
    ensures MappedId(m, expand, kind) == MappedId(n, expand, kind) <==> GroupKey(m, expand, kind) == GroupKey(n, expand, kind)
  {
    hide ClusterKey, DistinctIds, Single;
    ClusterKeyIsNoId(nodes, kind, m, n);
    ClusterKeyIsNoId(nodes, kind, n, m);
    PrefixIsInjective(ClusterKey(m, kind), ClusterKey(n, kind));
  }

  lemma PrefixIsInjective(a: string, b: string)
    ensures "cluster:" + a == "cluster:" + b ==> a == b
  {
    if "cluster:" + a == "cluster:" + b {
      assert a == ("cluster:" + a)[8..];
      assert b == ("cluster:" + b)[8..];
    }
  }

  // ---- Edges ------------------------------------------------------------------------------------------

  type Ids = map<string, string>

  function Lookup(ids: Ids, id: string): string {
    if id in ids && ids[id] != "" then ids[id] else id
  }

  function Weight(e: Edge): nat { if e.weight > 1 then e.weight else 1 }

  function EdgeKey(e: Edge, ids: Ids): string { Lookup(ids, e.source) + "|" + Lookup(ids, e.target) + "|" + e.kind }

  predicate Crosses(e: Edge, ids: Ids) { Lookup(ids, e.source) != Lookup(ids, e.target) }

  function Merged(em: map<string, Edge>, e: Edge, ids: Ids): map<string, Edge> {
    if !Crosses(e, ids) then em
    else
      var key := EdgeKey(e, ids);
      em[key := Edge(Lookup(ids, e.source), Lookup(ids, e.target), e.kind,
                     (if key in em then em[key].weight else 0) + Weight(e))]
  }

  function MergeAll(edges: seq<Edge>, ids: Ids): map<string, Edge> {
    if edges == [] then map[] else Merged(MergeAll(edges[..|edges| - 1], ids), edges[|edges| - 1], ids)
  }

  /** The weight of all edges whose mapped ends differ. */
  function CrossWeight(edges: seq<Edge>, ids: Ids): nat {
    if edges == [] then 0
    else CrossWeight(edges[..|edges| - 1], ids) + if Crosses(edges[|edges| - 1], ids) then Weight(edges[|edges| - 1]) else 0
  }

  ghost function Weights(em: map<string, Edge>): map<string, nat> { map k | k in em :: em[k].weight }

  lemma MergedWeights(em: map<string, Edge>, e: Edge, ids: Ids)
    requires Crosses(e, ids)
    ensures var key := EdgeKey(e, ids);
            Weights(Merged(em, e, ids)) == Weights(em)[key := At(Weights(em), key) + Weight(e)]
  {
    hide Lookup, EdgeKey, Weight, Crosses;
  }

  /** An edge joins two different nodes and is filed under its ends and kind. */
  predicate Filed(e: Edge, k: string) { e.source != e.target && e.source + "|" + e.target + "|" + e.kind == k }

  ghost predicate AllFiled(em: map<string, Edge>) { forall k <- em :: Filed(em[k], k) }

  lemma MergedIsFiled(em: map<string, Edge>, e: Edge, ids: Ids)
    requires AllFiled(em)
    ensures AllFiled(Merged(em, e, ids))
  {
    hide Lookup, Weight;
  }

  /** Merging edges keeps their total weight, and never makes an edge from a node to itself. */
  lemma {:induction false} MergingKeepsWeight(edges: seq<Edge>, ids: Ids)
    ensures Total(Weights(MergeAll(edges, ids))) == CrossWeight(edges, ids)
    ensures AllFiled(MergeAll(edges, ids))
    decreases |edges|
  {
    hide Lookup, EdgeKey, Total, Weight, Weights, Merged, AllFiled, At;
    if edges == [] {
      NothingMerged();
    } else {
      var front, e := edges[..|edges| - 1], edges[|edges| - 1];
      MergingKeepsWeight(front, ids);
      var em := MergeAll(front, ids);
      MergedIsFiled(em, e, ids);
      if Crosses(e, ids) {
        MergedWeights(em, e, ids);
        TotalUpdate(Weights(em), EdgeKey(e, ids), At(Weights(em), EdgeKey(e, ids)) + Weight(e));
      } else {
        NotMerged(em, e, ids);
      }
    }
  }

  lemma NothingMerged()
    ensures Total(Weights(map[])) == 0 && AllFiled(map[])
  {
    assert Weights(map[]) == map[];
    TotalOfNone();
  }

  lemma NotMerged(em: map<string, Edge>, e: Edge, ids: Ids)
    requires !Crosses(e, ids)
    ensures Merged(em, e, ids) == em
  {
    hide Crosses;
  }

  // ---- The weight of one merged edge ----------------------------------------------------------------

  /** The edge, with its ends mapped, joins what `x` joins and is of its kind. */
  predicate Joining(e: Edge, ids: Ids, x: Edge) {
    Crosses(e, ids) && Lookup(ids, e.source) == x.source && Lookup(ids, e.target) == x.target && e.kind == x.kind
  }

  predicate Under(e: Edge, ids: Ids, k: string) { Crosses(e, ids) && EdgeKey(e, ids) == k }

  /** The weight of all edges between the mapped ends of `x`, and of all edges with a key. */
  function WeightBetween(edges: seq<Edge>, ids: Ids, x: Edge): nat {
    if edges == [] then 0
    else WeightBetween(edges[..|edges| - 1], ids, x) + if Joining(edges[|edges| - 1], ids, x) then Weight(edges[|edges| - 1]) else 0
  }

  function WeightUnder(edges: seq<Edge>, ids: Ids, k: string): nat {
    if edges == [] then 0
    else WeightUnder(edges[..|edges| - 1], ids, k) + if Under(edges[|edges| - 1], ids, k) then Weight(edges[|edges| - 1]) else 0
  }

  /** No edge with the key of `x` joins other ends or is of another kind. */
  predicate Alone(edges: seq<Edge>, ids: Ids, x: Edge, k: string) {
    forall i :: 0 <= i < |edges| && Under(edges[i], ids, k) ==> Joining(edges[i], ids, x)
  }

  /** One merged edge for every key of a crossing edge: its ends are those of such an edge, its weight
      that of all of them. */
  lemma {:induction false} MergedUnder(edges: seq<Edge>, ids: Ids, k: string)
    ensures var em := MergeAll(edges, ids);
            && (k in em <==> exists i :: 0 <= i < |edges| && Under(edges[i], ids, k))
            && (k in em ==> em[k].weight == WeightUnder(edges, ids, k))
            && (k !in em ==> WeightUnder(edges, ids, k) == 0)
            && (k in em ==> exists i :: 0 <= i < |edges| && Under(edges[i], ids, k) && Joining(edges[i], ids, em[k]))
    decreases |edges|
  {
    hide Lookup, Weight, MergeAll, Under, Joining;
    MergeStep(edges, ids, k);
    if edges != [] {
      var n := |edges| - 1;
      var front, e := edges[..n], edges[n];
      MergedUnder(front, ids, k);
      var em := MergeAll(edges, ids);
      if Under(e, ids, k) {
        assert Under(edges[n], ids, k) && Joining(edges[n], ids, em[k]);
      } else if k in em {
        var i :| 0 <= i < |front| && Under(front[i], ids, k) && Joining(front[i], ids, em[k]);
        assert edges[i] == front[i];
      } else {
        forall i | 0 <= i < |edges| ensures !Under(edges[i], ids, k) { assert i < n ==> front[i] == edges[i]; }
      }
    }
  }

  /** What the last edge does to the merged edge of one key. */
  lemma MergeStep(edges: seq<Edge>, ids: Ids, k: string)
    ensures edges == [] ==> MergeAll(edges, ids) == map[]
    ensures edges != [] ==>
      var e := edges[|edges| - 1];
      var before, em := MergeAll(edges[..|edges| - 1], ids), MergeAll(edges, ids);
      && (Under(e, ids, k) ==> k in em && Joining(e, ids, em[k])
                               && em[k].weight == (if k in before then before[k].weight else 0) + Weight(e))
      && (!Under(e, ids, k) ==> (k in em <==> k in before) && (k in em ==> em[k] == before[k]))
  {
    hide Lookup, Weight;
  }

  lemma JoiningIsUnder(e: Edge, ids: Ids, x: Edge, k: string)
    requires Filed(x, k) && Joining(e, ids, x)
    ensures Under(e, ids, k)
  {
    hide Lookup;
  }

  lemma {:induction false} BetweenIff(edges: seq<Edge>, ids: Ids, x: Edge, k: string)
    requires Filed(x, k)
    ensures WeightBetween(edges, ids, x) <= WeightUnder(edges, ids, k)
    ensures WeightBetween(edges, ids, x) == WeightUnder(edges, ids, k) <==> Alone(edges, ids, x, k)
    decreases |edges|
  {
    hide Lookup, Under, Joining, Filed;
    if edges != [] {
      var n := |edges| - 1;
      var front, e := edges[..n], edges[n];
      BetweenIff(front, ids, x, k);
      if Joining(e, ids, x) { JoiningIsUnder(e, ids, x, k); }
      AloneStep(edges, ids, x, k);
    }
  }

  lemma AloneStep(edges: seq<Edge>, ids: Ids, x: Edge, k: string)
    requires edges != []
    ensures var n := |edges| - 1;
            Alone(edges, ids, x, k) <==>
              Alone(edges[..n], ids, x, k) && (Under(edges[n], ids, k) ==> Joining(edges[n], ids, x))
  {
    hide Under, Joining;
    var front := edges[..|edges| - 1];
    forall i | 0 <= i < |front| ensures front[i] == edges[i] {}
  }

  /** The weight of a merged edge is that of the edges between its ends, of its kind, if and only if no
      edge with other ends or of another kind has the same key. */
  lemma MergedWeightIff(edges: seq<Edge>, ids: Ids, k: string)
    requires k in MergeAll(edges, ids)
    ensures var x := MergeAll(edges, ids)[k];
            x.weight == WeightBetween(edges, ids, x) <==> Alone(edges, ids, x, k)
  {
    hide MergeAll, WeightBetween, WeightUnder, Alone, Lookup, Filed, Total, CrossWeight;
    var x := MergeAll(edges, ids)[k];
    MergedUnder(edges, ids, k);
    MergingKeepsWeight(edges, ids);
    BetweenIff(edges, ids, x, k);
  }

  predicate NoBar(e: Edge, ids: Ids) { '|' !in Lookup(ids, e.source) && '|' !in Lookup(ids, e.target) }

  lemma BarAt(a: string, r: string, b: string, q: string)
    requires '|' !in a && '|' !in b && a + "|" + r == b + "|" + q
    ensures a == b && r == q
  {
    var s, t := a + "|" + r, b + "|" + q;
    assert s[|a|] == '|' && t[|b|] == '|';
    forall i | 0 <= i < |a| ensures s[i] != '|' { assert s[i] == a[i]; }
    forall i | 0 <= i < |b| ensures t[i] != '|' { assert t[i] == b[i]; }
    assert s[..|a|] == a && t[..|b|] == b && s[|a| + 1..] == r && t[|b| + 1..] == q;
  }

  /** Keys of edges whose mapped ends hold no bar are told apart. */
  lemma NoBarIsAlone(edges: seq<Edge>, ids: Ids, k: string)
    requires k in MergeAll(edges, ids) && forall i :: 0 <= i < |edges| ==> NoBar(edges[i], ids)
    ensures Alone(edges, ids, MergeAll(edges, ids)[k], k)
  {
    hide MergeAll, Lookup, WeightUnder, Crosses, NoBar;
    MergedUnder(edges, ids, k);
    var x := MergeAll(edges, ids)[k];
    var l :| 0 <= l < |edges| && Under(edges[l], ids, k) && Joining(edges[l], ids, x);
    forall i | 0 <= i < |edges| && Under(edges[i], ids, k) ensures Joining(edges[i], ids, x) {
      SameKeySameEnds(edges[i], edges[l], ids);
    }
  }

  lemma SameKeySameEnds(e: Edge, f: Edge, ids: Ids)
    requires NoBar(e, ids) && NoBar(f, ids) && EdgeKey(e, ids) == EdgeKey(f, ids)
    ensures Lookup(ids, e.source) == Lookup(ids, f.source) && Lookup(ids, e.target) == Lookup(ids, f.target) && e.kind == f.kind
  {
    hide Lookup;
    var a, b, c, d := Lookup(ids, e.source), Lookup(ids, e.target), Lookup(ids, f.source), Lookup(ids, f.target);
    assert a + "|" + b + "|" + e.kind == a + "|" + (b + "|" + e.kind);
    assert c + "|" + d + "|" + f.kind == c + "|" + (d + "|" + f.kind);
    BarAt(a, b + "|" + e.kind, c, d + "|" + f.kind);
    BarAt(b, e.kind, d, f.kind);
  }

  /** Ids that hold a bar: two edges of different ends become one, with the weight of both. */
  lemma CollidingKeys(kind: string, v: nat, w: nat)
    ensures var e, f := Edge("x|y", "z", kind, v), Edge("x", "y|z", kind, w);
            && MergeAll([e, f], map[]).Keys == {"x|y|z|" + kind}
            && MergeAll([e, f], map[])["x|y|z|" + kind] == Edge("x", "y|z", kind, Weight(e) + Weight(f))
  {
    hide Weight;
    var e, f := Edge("x|y", "z", kind, v), Edge("x", "y|z", kind, w);
    var key := "x|y|z|" + kind;
    assert [e, f][..1] == [e];
    var one: seq<Edge> := [e];
    assert one[..0] == [];
    BarKeys(kind);
    assert MergeAll([], map[]) == map[];
    assert MergeAll(one, map[]) == map[key := Edge("x|y", "z", kind, Weight(e))];
  }

  lemma BarKeys(kind: string)
    ensures "x|y" + "|" + "z" + "|" + kind == "x|y|z|" + kind && "x" + "|" + "y|z" + "|" + kind == "x|y|z|" + kind
    ensures "x|y" != "z" && "x" != "y|z"
  {
    assert "x|y" + "|" + "z" + "|" == "x|y|z|" && "x" + "|" + "y|z" + "|" == "x|y|z|";
    assert |"x|y"| == 3 && |"z"| == 1;
  }

  // ---- Sums over an order ---------------------------------------------------------------------------

  ghost predicate EnumeratesKeys(order: seq<string>, keys: set<string>) {
    && (forall k :: k in order <==> k in keys)
    && forall i, j :: 0 <= i < j < |order| ==> order[i] != order[j]
  }

  function SumOver(order: seq<string>, m: map<string, nat>): nat {
    if order == [] then 0 else SumOver(order[..|order| - 1], m) + At(m, order[|order| - 1])
  }

  /** In whatever order the keys are visited, the sum is the total. */
  lemma {:induction false} SumIsTotal(order: seq<string>, m: map<string, nat>)
    requires EnumeratesKeys(order, m.Keys)
    ensures SumOver(order, m) == Total(m)
    decreases |order|
  {
    hide Total, EnumeratesKeys;
    if order == [] {
      TotalOfNone();
      NothingEnumerated(m.Keys);
      assert m == map[];
    } else {
      var front, last := order[..|order| - 1], order[|order| - 1];
      EnumeratesFront(order, m.Keys);
      TotalWithout(m, last);
      assert (m - {last}).Keys == m.Keys - {last};
      SumIsTotal(front, m - {last});
      SameSum(front, m, m - {last});
    }
  }

  lemma NothingEnumerated(keys: set<string>)
    requires EnumeratesKeys([], keys)
    ensures keys == {}
  {}

  lemma EnumeratesFront(order: seq<string>, keys: set<string>)
    requires order != [] && EnumeratesKeys(order, keys)
    ensures order[|order| - 1] in keys && EnumeratesKeys(order[..|order| - 1], keys - {order[|order| - 1]})
    ensures forall i :: 0 <= i < |order| - 1 ==> order[i] != order[|order| - 1]
  {
    var front, last := order[..|order| - 1], order[|order| - 1];
    assert order == front + [last];
    forall k ensures k in front <==> k in keys - {last} {
      if k in front { var i :| 0 <= i < |front| && front[i] == k; assert order[i] == k; }
    }
  }

  lemma {:induction false} SameSum(order: seq<string>, m: map<string, nat>, m': map<string, nat>)
    requires forall i :: 0 <= i < |order| ==> At(m, order[i]) == At(m', order[i])
    ensures SumOver(order, m) == SumOver(order, m')
    decreases |order|
  {
    if order != [] {
      SameSum(order[..|order| - 1], m, m');
    }
  }

  function Counts(outs: seq<OutNode>): nat {
    if outs == [] then 0 else Counts(outs[..|outs| - 1]) + outs[|outs| - 1].count
  }

  function EdgeWeights(edges: seq<Edge>): nat {
    if edges == [] then 0 else EdgeWeights(edges[..|edges| - 1]) + edges[|edges| - 1].weight
  }

  // ---- The loops ---------------------------------------------------------------------------------

  lemma GroupSnoc(nodes: seq<Node>, i: nat, expand: Expand, kind: string -> LabelKind)
    requires i < |nodes|
    ensures GroupAll(nodes[..i + 1], expand, kind) == Grouped(GroupAll(nodes[..i], expand, kind), nodes[i], expand, kind)
  {
    hide Grouped;
    assert nodes[..i + 1][..i] == nodes[..i];
  }

  method GroupNodes(nodes: seq<Node>, expand: Expand, kind: string -> LabelKind) returns (groups: Groups)
    ensures groups == GroupAll(nodes, expand, kind)
  {
    hide ClusterKey, Important, GroupAll;
    groups := map[];
    assert nodes[..0] == [] && GroupAll([], expand, kind) == map[] by { NoGroupsYet(expand, kind); }
    for i := 0 to |nodes|
      invariant groups == GroupAll(nodes[..i], expand, kind)
    {
      GroupSnoc(nodes, i, expand, kind);
      var n := nodes[i];
      var k := ClusterKey(n, kind);
      if Important(n, expand) || k == expand.key {
        groups := groups[n.id := [n]];
      } else {
        groups := groups[k := (if k in groups then groups[k] else []) + [n]];
      }
    }
    assert nodes[..|nodes|] == nodes;
  }

  lemma NoGroupsYet(expand: Expand, kind: string -> LabelKind)
    ensures GroupAll([], expand, kind) == map[]
  {}

  ghost predicate MembersMapped(ids: Ids, ids': Ids, xs: seq<Node>, id: string) {
    && (forall n :: n in ids' <==> n in ids || exists m :: m in xs && m.id == n)
    && (forall n :: n in ids' ==> ids'[n] == if exists m :: m in xs && m.id == n then id else ids[n])
  }

  /** The ids of the members of one group, mapped to its output node. */
  method MapMembers(ids: Ids, xs: seq<Node>, id: string) returns (ids': Ids)
    ensures MembersMapped(ids, ids', xs, id)
  {
    ids' := ids;
    for i := 0 to |xs|
      invariant MembersMapped(ids, ids', xs[..i], id)
    {
      assert xs[..i + 1] == xs[..i] + [xs[i]];
      ids' := ids'[xs[i].id := id];
    }
    assert xs[..|xs|] == xs;
  }

  /** The ids of the nodes of the groups visited so far, mapped to their output nodes. */
  ghost predicate MapsNodes(ids: Ids, nodes: seq<Node>, order: seq<string>, expand: Expand, kind: string -> LabelKind) {
    && (forall n :: n in nodes && GroupKey(n, expand, kind) in order ==> n.id in ids && ids[n.id] == MappedId(n, expand, kind))
    && (forall id :: id in ids ==> exists n :: n in nodes && n.id == id && GroupKey(n, expand, kind) in order)
  }

  lemma GroupIs(groups: Groups, nodes: seq<Node>, expand: Expand, kind: string -> LabelKind, k: string)
    requires DistinctIds(nodes, kind) && groups == GroupAll(nodes, expand, kind) && k in groups
    ensures groups[k] != [] && forall n :: n in groups[k] <==> n in nodes && GroupKey(n, expand, kind) == k
    ensures forall n :: n in groups[k] ==> MappedId(n, expand, kind) == OutOf(k, groups[k], expand).id
    ensures OutOf(k, groups[k], expand).count == |groups[k]|
  {
    hide ClusterKey, DistinctIds, Important, MaxRisk, FirstIds, Single, GroupAll, Total, OutOf, MappedId, GroupKey;
    GroupsPartition(nodes, expand, kind);
    forall n | n in groups[k]
      ensures MappedId(n, expand, kind) == OutOf(k, groups[k], expand).id && OutOf(k, groups[k], expand).count == |groups[k]|
    {
      OutputOfNode(nodes, expand, kind, n);
    }
    assert groups[k][0] in groups[k];
  }

  lemma MapsMore(ids: Ids, ids': Ids, nodes: seq<Node>, order: seq<string>, k: string, xs: seq<Node>, id: string,
                 expand: Expand, kind: string -> LabelKind)
    requires DistinctIds(nodes, kind) && MapsNodes(ids, nodes, order, expand, kind)
    requires forall n :: n in xs <==> n in nodes && GroupKey(n, expand, kind) == k
    requires forall n :: n in xs ==> MappedId(n, expand, kind) == id
    requires MembersMapped(ids, ids', xs, id)
    ensures MapsNodes(ids', nodes, order + [k], expand, kind)
  {
    hide ClusterKey, DistinctIds, GroupKey, MappedId;
    forall n | n in nodes && GroupKey(n, expand, kind) in order + [k]
      ensures n.id in ids' && ids'[n.id] == MappedId(n, expand, kind)
    {
      if exists m :: m in xs && m.id == n.id {
        var m :| m in xs && m.id == n.id;
        ClusterKeyIsNoId(nodes, kind, m, n);
      } else {
        assert n !in xs;
      }
    }
  }

  lemma EnumeratesSnoc(order: seq<string>, keys: set<string>, todo: set<string>, k: string)
    requires todo <= keys && EnumeratesKeys(order, keys - todo) && k in todo
    ensures EnumeratesKeys(order + [k], keys - (todo - {k}))
  {
    var all := order + [k];
    forall i, j | 0 <= i < j < |all| ensures all[i] != all[j] {
      if j == |order| { assert order[i] in order; }
    }
  }

  lemma CountsSnoc(outs: seq<OutNode>, out: OutNode, order: seq<string>, k: string, sizes: map<string, nat>)
    requires Counts(outs) == SumOver(order, sizes) && k in sizes && out.count == sizes[k]
    ensures Counts(outs + [out]) == SumOver(order + [k], sizes)
  {
    assert (outs + [out])[..|outs|] == outs && (order + [k])[..|order|] == order;
  }

  ghost function Sizes(groups: Groups): map<string, nat> { map k | k in groups :: |groups[k]| }

  lemma CountIsSize(k: string, xs: seq<Node>, expand: Expand)
    ensures OutOf(k, xs, expand).count == |xs|
  {
    hide Important, MaxRisk, FirstIds;
  }

  /** The groups visited so far, one output node each. */
  ghost predicate Listed(outs: seq<OutNode>, order: seq<string>, groups: Groups, expand: Expand) {
    && |outs| == |order|
    && forall i :: 0 <= i < |order| ==> order[i] in groups && outs[i] == OutOf(order[i], groups[order[i]], expand)
  }

  lemma ListedSnoc(outs: seq<OutNode>, order: seq<string>, groups: Groups, expand: Expand, k: string)
    requires Listed(outs, order, groups, expand) && k in groups
    ensures Listed(outs + [OutOf(k, groups[k], expand)], order + [k], groups, expand)
  {
    hide OutOf;
  }

  method CollectImportant(nodes: seq<Node>, key: string) returns (important: set<string>)
    ensures important == ImportantIds(nodes, key)
  {
    important := {};
    for i := 0 to |nodes|
      invariant important == ImportantIds(nodes[..i], key)
    {
      var n := nodes[i];
      assert nodes[..i + 1] == nodes[..i] + [n];
      if n.risk >= 80 || n.kind == "finding" || n.id == key {
        important := important + {n.id};
      }
    }
    assert nodes[..|nodes|] == nodes;
  }

  /** Before the cut: the nodes are clustered, in some order, and edges are merged. When ids are
      distinct, each node is mapped to its output node, and the counts add up. */
  method ClusterAll(g: Graph, key: string, kind: string -> LabelKind)
    returns (outs: seq<OutNode>, ids: Ids, em: map<string, Edge>, ghost order: seq<string>)
    ensures EnumeratesKeys(order, GroupAll(g.nodes, ExpandOf(g.nodes, key), kind).Keys)
    ensures Listed(outs, order, GroupAll(g.nodes, ExpandOf(g.nodes, key), kind), ExpandOf(g.nodes, key))
    ensures DistinctIds(g.nodes, kind) ==>
              Counts(outs) == |g.nodes| && forall n <- g.nodes :: n.id in ids && ids[n.id] == MappedId(n, ExpandOf(g.nodes, key), kind)
    ensures em == MergeAll(g.edges, ids)
  {
    hide ClusterKey, DistinctIds, Important, GroupAll, OutOf, MergeAll, Merged, Total, GroupKey, MappedId, MapsNodes,
      EnumeratesKeys, Listed, Counts, SumOver, MembersMapped, Sizes;
    var important := CollectImportant(g.nodes, key);
    var expand := Expand(important, key);
    var groups := GroupNodes(g.nodes, expand, kind);
    outs, ids, order := [], map[], [];
    StartListing(groups, expand);
    MapsNothing(g.nodes, expand, kind);
    ghost var distinct := DistinctIds(g.nodes, kind);
    ghost var sizes := Sizes(groups);
    var todo := groups.Keys;
    assert groups.Keys - todo == {};
    while todo != {}
      invariant todo <= groups.Keys && EnumeratesKeys(order, groups.Keys - todo)
      invariant Listed(outs, order, groups, expand)
      invariant distinct ==> MapsNodes(ids, g.nodes, order, expand, kind)
      invariant Counts(outs) == SumOver(order, sizes)
      decreases |todo|
    {
      var k :| k in todo;
      var xs := groups[k];
      var out := OutOf(k, xs, expand);
      var ids' := MapMembers(ids, xs, out.id);
      if distinct {
        GroupIs(groups, g.nodes, expand, kind, k);
        MapsMore(ids, ids', g.nodes, order, k, xs, out.id, expand, kind);
      }
      CountIsSize(k, xs, expand);
      SizeIs(groups, k);
      CountsSnoc(outs, out, order, k, sizes);
      ListedSnoc(outs, order, groups, expand, k);
      EnumeratesSnoc(order, groups.Keys, todo, k);
      ids := ids';
      outs := outs + [out];
      order := order + [k];
      todo := todo - {k};
    }
    assert groups.Keys - todo == groups.Keys;
    if distinct {
      AllMapped(ids, g.nodes, groups, order, expand, kind);
      GroupsPartition(g.nodes, expand, kind);
      SizesAre(groups);
      SumIsTotal(order, sizes);
    }
    em := MergeEdges(g.edges, ids);
  }

  lemma SizeIs(groups: Groups, k: string)
    requires k in groups
    ensures k in Sizes(groups) && Sizes(groups)[k] == |groups[k]|
  {}

  lemma SizesAre(groups: Groups)
    ensures Sizes(groups).Keys == groups.Keys && Sizes(groups) == map k | k in groups :: |groups[k]|
  {}

  lemma StartListing(groups: Groups, expand: Expand)
    ensures Listed([], [], groups, expand) && EnumeratesKeys([], {})
    ensures Counts([]) == SumOver([], Sizes(groups))
  {}

  lemma MapsNothing(nodes: seq<Node>, expand: Expand, kind: string -> LabelKind)
    ensures MapsNodes(map[], nodes, [], expand, kind)
  {}

  lemma AllMapped(ids: Ids, nodes: seq<Node>, groups: Groups, order: seq<string>, expand: Expand, kind: string -> LabelKind)
    requires DistinctIds(nodes, kind) && groups == GroupAll(nodes, expand, kind) && EnumeratesKeys(order, groups.Keys)
    requires MapsNodes(ids, nodes, order, expand, kind)
    ensures forall n <- nodes :: n.id in ids && ids[n.id] == MappedId(n, expand, kind)
  {
    hide ClusterKey, DistinctIds, GroupAll, GroupKey, MappedId, Total;
    GroupsPartition(nodes, expand, kind);
  }

  method MergeEdges(edges: seq<Edge>, ids: Ids) returns (em: map<string, Edge>)
    ensures em == MergeAll(edges, ids)
  {
    hide Lookup, Weight;
    em := map[];
    assert edges[..0] == [];
    for i := 0 to |edges|
      invariant em == MergeAll(edges[..i], ids)
    {
      assert edges[..i + 1][..i] == edges[..i];
      var e := edges[i];
      var a, b := Lookup(ids, e.source), Lookup(ids, e.target);
      if a != b {
        var key := a + "|" + b + "|" + e.kind;
        var w := if key in em then em[key].weight else 0;
        em := em[key := Edge(a, b, e.kind, w + Weight(e))];
      }
    }
    assert edges[..|edges|] == edges;
  }
}
