/**
 * `create_graph_from_network_data` (pages/4_Markers.py): rebuilds the concept
 * graph the network page saved as `{nodes: [{id, color}], edges: [{source,
 * target, label}]}`. The directed graph is modelled by what the marker code
 * observes of it: nodes in insertion order, a colour per node given one, an
 * ordered successor list per node and a label per edge.
 */
module ConceptGraph {
  import opened Wrappers
  import opened Sequences

  /** One entry of the saved `nodes` list. */
  datatype NodeRecord = NodeRecord(id: string, color: string)

  /** One entry of the saved `edges` list; the label may be absent. */
  datatype EdgeRecord = EdgeRecord(source: string, target: string, edgeLabel: Option<string>)

  /** The saved network; either list may be absent. */
  datatype NetworkData = NetworkData(nodes: Option<seq<NodeRecord>>, edges: Option<seq<EdgeRecord>>)

  /** `network_data.get('nodes', [])`. */
  function NodeList(data: NetworkData): seq<NodeRecord> {
    data.nodes.GetOr([])
  }

  /** `network_data.get('edges', [])`. */
  function EdgeList(data: NetworkData): seq<EdgeRecord> {
    data.edges.GetOr([])
  }

  /** `edge.get('label', '')`. */
  function LabelOf(e: EdgeRecord): string {
    e.edgeLabel.GetOr("")
  }

  /**
   * A directed graph with at most one edge per ordered pair: `nodes` in
   * insertion order, `colour` for the nodes that were given one, `succ` the
   * successors of each node in the order their edges were first added, and
   * `labels` the label of each edge.
   */
  datatype Graph = Graph(
    nodes: seq<string>,
    colour: map<string, string>,
    succ: map<string, seq<string>>,
    labels: map<(string, string), string>)
  {
    /** Node ids are distinct, every node has a successor list, and successors are distinct nodes. */
    ghost predicate Valid() {
      && NoDups(nodes)
      && (forall n :: n in succ <==> n in nodes)
      && (forall u :: u in succ ==> NoDups(succ[u]))
      && (forall u, v :: u in succ && v in succ[u] ==> v in succ)
    }

    /** `add_node(n, color=c)`: a new node goes last; an existing one keeps its place and takes the colour. */
    function AddNode(n: string, c: string): Graph {
      if n in succ then this.(colour := colour[n := c])
      else Graph(nodes + [n], colour[n := c], succ[n := []], labels)
    }

    /** The implicit node creation of `add_edge`: an absent endpoint is added without attributes. */
    function EnsureNode(n: string): Graph {
      if n in succ then this
      else Graph(nodes + [n], colour, succ[n := []], labels)
    }

    /**
     * `add_edge(u, v, label=l)`: both endpoints exist afterwards; a new edge
     * goes last among the successors of `u`, a repeated one keeps its place
     * and takes the new label.
     */
    function AddEdge(u: string, v: string, l: string): Graph {
      EnsureNode(u).EnsureNode(v).Link(u, v, l)
    }

    /** The edge update of `add_edge` once both endpoints are nodes. */
    function Link(u: string, v: string, l: string): Graph
      requires u in succ
    {
      var out := if v in succ[u] then succ[u] else succ[u] + [v];
      Graph(nodes, colour, succ[u := out], labels[(u, v) := l])
    }
  }

  /** Adding a node keeps the graph well formed. */
  lemma AddNodeKeepsValid(g: Graph, n: string, c: string)
    requires g.Valid()
    ensures g.AddNode(n, c).Valid()
  {
  }

  /** Adding an endpoint keeps the graph well formed and makes it a node. */
  lemma EnsureNodeKeepsValid(g: Graph, n: string)
    requires g.Valid()
    ensures g.EnsureNode(n).Valid() && n in g.EnsureNode(n).succ
  {
  }

  /** Helper: linking two existing nodes keeps the graph well formed. */
  lemma LinkKeepsValid(g: Graph, u: string, v: string, l: string)
    requires g.Valid() && u in g.succ && v in g.succ
    ensures g.Link(u, v, l).Valid()
  {
    var r := g.Link(u, v, l);
    assert forall w, x :: w in r.succ && x in r.succ[w] ==> x in r.succ;
  }

  /** Adding an edge keeps the graph well formed: no second copy of an edge, no dangling endpoint. */
  lemma AddEdgeKeepsValid(g: Graph, u: string, v: string, l: string)
    requires g.Valid()
    ensures g.AddEdge(u, v, l).Valid()
  {
    EnsureNodeKeepsValid(g, u);
    var g1 := g.EnsureNode(u);
    EnsureNodeKeepsValid(g1, v);
    LinkKeepsValid(g1.EnsureNode(v), u, v, l);
  }

  /** The empty `nx.DiGraph()`. */
  function EmptyGraph(): (g: Graph)
    ensures g.Valid() && g.nodes == []
  {
    Graph([], map[], map[], map[])
  }

  // ---------------------------------------------------------------------
  // Reference definitions of what the rebuilt graph holds
  // ---------------------------------------------------------------------

  /** The node ids in list order, repeats kept. */
  function NodeIds(ns: seq<NodeRecord>): seq<string> {
    if ns == [] then [] else NodeIds(ns[..|ns| - 1]) + [ns[|ns| - 1].id]
  }

  /** Source and target of every edge, in list order. */
  function Endpoints(es: seq<EdgeRecord>): seq<string> {
    if es == [] then [] else Endpoints(es[..|es| - 1]) + [es[|es| - 1].source, es[|es| - 1].target]
  }

  /** Each id's colour, the later record winning. */
  function ColourMap(ns: seq<NodeRecord>): map<string, string> {
    if ns == [] then map[]
    else ColourMap(ns[..|ns| - 1])[ns[|ns| - 1].id := ns[|ns| - 1].color]
  }

  /** The targets of the edges leaving `u`, in list order, repeats kept. */
  function Targets(es: seq<EdgeRecord>, u: string): seq<string> {
    if es == [] then []
    else Targets(es[..|es| - 1], u) + (if es[|es| - 1].source == u then [es[|es| - 1].target] else [])
  }

  /** Each edge's label, the later record winning. */
  function LabelMap(es: seq<EdgeRecord>): map<(string, string), string> {
    if es == [] then map[]
    else
      var e := es[|es| - 1];
      LabelMap(es[..|es| - 1])[(e.source, e.target) := LabelOf(e)]
  }

  // ---------------------------------------------------------------------
  // create_graph_from_network_data
  // ---------------------------------------------------------------------

  /**
   * `g` holds what adding the node records `ns` and then the edge records
   * `es` puts in a graph.
   */
  ghost predicate Rebuilt(g: Graph, ns: seq<NodeRecord>, es: seq<EdgeRecord>) {
    && g.nodes == Dedup(NodeIds(ns) + Endpoints(es))
    && (forall n :: n in g.succ <==> n in g.nodes)
    && g.colour == ColourMap(ns)
    && (forall u :: u in g.succ ==> g.succ[u] == Dedup(Targets(es, u)))
    && g.labels == LabelMap(es)
  }

  /**
   * Rebuilds the graph: nodes in order of first appearance among the node ids
   * and then the edge endpoints, the last colour given to each id, the
   * distinct targets of each node in order of first appearance, and the last
   * label given to each edge.
   */
  method CreateGraphFromNetworkData(data: NetworkData) returns (g: Graph)
    ensures g.Valid()
    ensures g.nodes == Dedup(NodeIds(NodeList(data)) + Endpoints(EdgeList(data)))
    ensures g.colour == ColourMap(NodeList(data))
    ensures forall u :: u in g.succ ==> g.succ[u] == Dedup(Targets(EdgeList(data), u))
    ensures g.labels == LabelMap(EdgeList(data))
  {
    var ns := NodeList(data);
    var es := EdgeList(data);
    g := EmptyGraph();
    for i := 0 to |ns|
      invariant Rebuilt(g, ns[..i], [])
    {
      AddNodeStep(g, ns[..i], ns[i]);
      PrefixSnoc(ns, i);
      g := g.AddNode(ns[i].id, ns[i].color);
    }
    assert ns[..|ns|] == ns;
    for j := 0 to |es|
      invariant Rebuilt(g, ns, es[..j])
    {
      AddEdgeStep(g, ns, es[..j], es[j]);
      PrefixSnoc(es, j);
      g := g.AddEdge(es[j].source, es[j].target, LabelOf(es[j]));
    }
    assert es[..|es|] == es;
    RebuiltIsValid(g, ns, es);
  }

  /** Helper: one `add_node` of the first loop. */
  lemma AddNodeStep(g: Graph, done: seq<NodeRecord>, r: NodeRecord)
    requires Rebuilt(g, done, [])
    ensures Rebuilt(g.AddNode(r.id, r.color), done + [r], [])
  {
    var ids := NodeIds(done);
    NodeIdsSnoc(done, r);
    ColourMapSnoc(done, r);
    assert ids + Endpoints([]) == ids;
    assert NodeIds(done + [r]) + Endpoints([]) == ids + [r.id];
    AddNodeShape(g, r.id, r.color);
    DedupMembers(ids);
    DedupSnoc(ids, r.id);
    var after := g.AddNode(r.id, r.color);
    forall u | u in after.succ
      ensures after.succ[u] == Dedup(Targets([], u))
    {
      assert Targets([], u) == [];
    }
  }

  /** Helper: what `add_node` changes. */
  lemma AddNodeShape(g: Graph, n: string, c: string)
    requires forall m :: m in g.succ <==> m in g.nodes
    ensures var r := g.AddNode(n, c);
      && r.nodes == (if n in g.nodes then g.nodes else g.nodes + [n])
      && (forall m :: m in r.succ <==> m in r.nodes)
      && (forall m :: m in r.succ ==> r.succ[m] == if m in g.succ then g.succ[m] else [])
      && r.colour == g.colour[n := c] && r.labels == g.labels
  {
  }

  /** Helper: one `add_edge` of the second loop. */
  lemma AddEdgeStep(g: Graph, ns: seq<NodeRecord>, done: seq<EdgeRecord>, e: EdgeRecord)
    requires Rebuilt(g, ns, done)
    ensures Rebuilt(g.AddEdge(e.source, e.target, LabelOf(e)), ns, done + [e])
  {
    var before := NodeIds(ns) + Endpoints(done);
    EndpointsSnoc(done, e);
    assert NodeIds(ns) + Endpoints(done + [e]) == before + [e.source] + [e.target];
    AddEdgeNodes(g, before, e.source, e.target, LabelOf(e));
    DedupMembers(before);
    LabelMapSnoc(done, e);
    var r := g.AddEdge(e.source, e.target, LabelOf(e));
    forall u | u in r.succ
      ensures r.succ[u] == Dedup(Targets(done + [e], u))
    {
      AddEdgeTargets(g, done, e, u);
    }
  }

  /** Helper: the nodes, colours and labels after one `add_edge`. */
  lemma AddEdgeNodes(g: Graph, before: seq<string>, u: string, v: string, l: string)
    requires forall n :: n in g.succ <==> n in g.nodes
    requires g.nodes == Dedup(before)
    ensures var r := g.AddEdge(u, v, l);
      && r.nodes == Dedup(before + [u] + [v])
      && (forall n :: n in r.succ <==> n in r.nodes)
      && r.colour == g.colour
      && r.labels == g.labels[(u, v) := l]
  {
    EnsureNodeNodes(g, u);
    EnsureNodeNodes(g.EnsureNode(u), v);
    DedupMembers(before);
    DedupSnoc(before, u);
    DedupMembers(before + [u]);
    DedupSnoc(before + [u], v);
  }

  /** Helper: adding an endpoint appends it to the nodes unless it is one already. */
  lemma EnsureNodeNodes(g: Graph, n: string)
    requires forall m :: m in g.succ <==> m in g.nodes
    ensures var r := g.EnsureNode(n);
      && r.nodes == (if n in g.nodes then g.nodes else g.nodes + [n])
      && (forall m :: m in r.succ <==> m in r.nodes)
      && r.colour == g.colour && r.labels == g.labels
  {
  }

  /** Helper: the successors of one node after one `add_edge`. */
  lemma AddEdgeTargets(g: Graph, done: seq<EdgeRecord>, e: EdgeRecord, u: string)
    requires forall w :: w in g.succ ==> g.succ[w] == Dedup(Targets(done, w))
    requires forall w :: w in Endpoints(done) ==> w in g.succ
    requires u in g.AddEdge(e.source, e.target, LabelOf(e)).succ
    ensures g.AddEdge(e.source, e.target, LabelOf(e)).succ[u] == Dedup(Targets(done + [e], u))
  {
    var prior := Targets(done, u);
    TargetsSnoc(done, e, u);
    TargetsWithinEndpoints(done, u);
    var g2 := g.EnsureNode(e.source).EnsureNode(e.target);
    EnsureNodeSucc(g, e.source, u);
    EnsureNodeSucc(g.EnsureNode(e.source), e.target, u);
    if u !in g.succ {
      assert prior == [];
    }
    if u == e.source {
      DedupMembers(prior);
      DedupSnoc(prior, e.target);
    } else {
      assert prior + [] == prior;
    }
  }

  /** Helper: adding an endpoint leaves every successor list as it was, and gives a new node none. */
  lemma EnsureNodeSucc(g: Graph, n: string, u: string)
    ensures var r := g.EnsureNode(n);
      (u in r.succ <==> u in g.succ || u == n)
      && (u in g.succ ==> r.succ[u] == g.succ[u])
      && (u !in g.succ && u == n ==> r.succ[u] == [])
  {
  }

  /** The graph rebuilt from any records is well formed. */
  lemma RebuiltIsValid(g: Graph, ns: seq<NodeRecord>, es: seq<EdgeRecord>)
    requires Rebuilt(g, ns, es)
    ensures g.Valid()
  {
    var all := NodeIds(ns) + Endpoints(es);
    DedupMembers(all);
    forall u | u in g.succ
      ensures NoDups(g.succ[u]) && forall v :: v in g.succ[u] ==> v in g.succ
    {
      DedupMembers(Targets(es, u));
      TargetsWithinEndpoints(es, u);
    }
  }

  lemma NodeIdsSnoc(ns: seq<NodeRecord>, r: NodeRecord)
    ensures NodeIds(ns + [r]) == NodeIds(ns) + [r.id]
  {
    assert (ns + [r])[..|ns|] == ns;
  }

  lemma ColourMapSnoc(ns: seq<NodeRecord>, r: NodeRecord)
    ensures ColourMap(ns + [r]) == ColourMap(ns)[r.id := r.color]
  {
    assert (ns + [r])[..|ns|] == ns;
  }

  lemma EndpointsSnoc(es: seq<EdgeRecord>, e: EdgeRecord)
    ensures Endpoints(es + [e]) == Endpoints(es) + [e.source, e.target]
  {
    assert (es + [e])[..|es|] == es;
  }

  lemma TargetsSnoc(es: seq<EdgeRecord>, e: EdgeRecord, u: string)
    ensures Targets(es + [e], u) == Targets(es, u) + (if e.source == u then [e.target] else [])
  {
    assert (es + [e])[..|es|] == es;
  }

  lemma LabelMapSnoc(es: seq<EdgeRecord>, e: EdgeRecord)
    ensures LabelMap(es + [e]) == LabelMap(es)[(e.source, e.target) := LabelOf(e)]
  {
    assert (es + [e])[..|es|] == es;
  }

  // ---------------------------------------------------------------------
  // Properties of the reference definitions
  // ---------------------------------------------------------------------

  /** The ids of the node records, one per record, in list order. */
  lemma {:induction false} NodeIdsSpec(ns: seq<NodeRecord>)
    ensures |NodeIds(ns)| == |ns|
    ensures forall k :: 0 <= k < |ns| ==> NodeIds(ns)[k] == ns[k].id
  {
    if ns != [] {
      var init := ns[..|ns| - 1];
      NodeIdsSpec(init);
      assert forall k :: 0 <= k < |init| ==> init[k] == ns[k];
    }
  }

  /** Both ends of an edge are endpoints. */
  lemma {:induction false} TargetsWithinEndpoints(es: seq<EdgeRecord>, u: string)
    ensures Targets(es, u) != [] ==> u in Endpoints(es)
    ensures forall v :: v in Targets(es, u) ==> v in Endpoints(es)
  {
    if es != [] {
      TargetsWithinEndpoints(es[..|es| - 1], u);
    }
  }

  /** An id is coloured exactly when it is in the node list, with the colour of its last record. */
  lemma {:induction false} ColourMapLastWins(ns: seq<NodeRecord>)
    ensures forall id :: id in ColourMap(ns) <==> id in NodeIds(ns)
    ensures forall k :: 0 <= k < |ns| && (forall k' :: k < k' < |ns| ==> ns[k'].id != ns[k].id) ==>
      ns[k].id in ColourMap(ns) && ColourMap(ns)[ns[k].id] == ns[k].color
  {
    if ns != [] {
      var init := ns[..|ns| - 1];
      ColourMapLastWins(init);
      forall k | 0 <= k < |ns| - 1 && (forall k' :: k < k' < |ns| ==> ns[k'].id != ns[k].id)
        ensures ns[k].id in ColourMap(ns) && ColourMap(ns)[ns[k].id] == ns[k].color
      {
        assert init[k] == ns[k];
        assert forall k' :: k < k' < |init| ==> init[k'].id != init[k].id;
      }
    }
  }

  /** `v` is a target of `u` exactly when some edge record goes from `u` to `v`. */
  lemma {:induction false} TargetsAreEdges(es: seq<EdgeRecord>, u: string, v: string)
    ensures v in Targets(es, u) <==> exists k :: 0 <= k < |es| && es[k].source == u && es[k].target == v
  {
    if es != [] {
      var init := es[..|es| - 1];
      TargetsAreEdges(init, u, v);
      if exists k :: 0 <= k < |init| && init[k].source == u && init[k].target == v {
        var k :| 0 <= k < |init| && init[k].source == u && init[k].target == v;
        assert es[k] == init[k];
      }
      if exists k :: 0 <= k < |es| && es[k].source == u && es[k].target == v {
        var k :| 0 <= k < |es| && es[k].source == u && es[k].target == v;
        if k < |init| {
          assert init[k] == es[k];
        }
      }
    }
  }

  /** Every edge record labels its pair. */
  lemma {:induction false} LabelMapHasEdges(es: seq<EdgeRecord>)
    ensures forall k :: 0 <= k < |es| ==> (es[k].source, es[k].target) in LabelMap(es)
  {
    if es != [] {
      var init := es[..|es| - 1];
      LabelMapHasEdges(init);
      forall k | 0 <= k < |es| - 1
        ensures (es[k].source, es[k].target) in LabelMap(es)
      {
        assert init[k] == es[k];
      }
    }
  }

  /** Every labelled pair comes from some edge record. */
  lemma {:induction false} LabelMapOnlyEdges(es: seq<EdgeRecord>)
    ensures forall u, v :: (u, v) in LabelMap(es) ==> exists k :: 0 <= k < |es| && es[k].source == u && es[k].target == v
  {
    if es != [] {
      var init := es[..|es| - 1];
      LabelMapOnlyEdges(init);
      forall u, v | (u, v) in LabelMap(es)
        ensures exists k :: 0 <= k < |es| && es[k].source == u && es[k].target == v
      {
        if (u, v) != (es[|es| - 1].source, es[|es| - 1].target) {
          var k :| 0 <= k < |init| && init[k].source == u && init[k].target == v;
          assert es[k] == init[k];
        }
      }
    }
  }

  /** The label of a pair is the one on the last record for that pair. */
  lemma {:induction false} LabelMapLastWins(es: seq<EdgeRecord>)
    ensures forall k :: 0 <= k < |es| && (forall k' :: k < k' < |es| ==> (es[k'].source, es[k'].target) != (es[k].source, es[k].target)) ==>
      (es[k].source, es[k].target) in LabelMap(es) && LabelMap(es)[(es[k].source, es[k].target)] == LabelOf(es[k])
  {
    LabelMapHasEdges(es);
    if es != [] {
      var init := es[..|es| - 1];
      LabelMapLastWins(init);
      LabelMapHasEdges(init);
      forall k | 0 <= k < |es| - 1 && (forall k' :: k < k' < |es| ==> (es[k'].source, es[k'].target) != (es[k].source, es[k].target))
        ensures LabelMap(es)[(es[k].source, es[k].target)] == LabelOf(es[k])
      {
        assert init[k] == es[k];
        assert forall k' :: k < k' < |init| ==> (init[k'].source, init[k'].target) != (init[k].source, init[k].target);
      }
    }
  }
}
