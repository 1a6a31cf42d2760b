/** The dependency graph as the tool's callers use it: nodes keyed by file
    path, each with the ordered list of its out-neighbours. `addNode` and
    `connect` are the only updates; nothing is ever removed. */
module Graphs {

  /** Out-neighbour lists keyed by node, as `getAllData()` hands them out. */
  type Adjacency = map<string, seq<string>>

  /** The graph's value: the nodes in creation order (`getNodes()`) and the
      out-neighbours of each node in the order `connect` added them. */
  datatype Digraph = Digraph(nodes: seq<string>, adj: Adjacency)
  {
    /** Each node is listed once, the listed nodes are exactly the keys, and
        every edge ends at a node. */
    ghost predicate Valid()
    {
      && (forall i, j :: 0 <= i < j < |nodes| ==> nodes[i] != nodes[j])
      && (forall u :: u in adj <==> u in nodes)
      && (forall u, v :: u in adj && v in adj[u] ==> v in adj)
    }

    /** `addNode(id)`: creates `id` without out-edges unless it exists. */
    function WithNode(id: string): (g: Digraph)
      ensures forall u :: u in g.adj <==> u in adj || u == id
      ensures forall u :: u in adj ==> g.adj[u] == adj[u]
      ensures id !in adj ==> g.adj[id] == [] && g.nodes == nodes + [id]
      ensures id in adj ==> g == this
    {
      if id in adj then this else Digraph(nodes + [id], adj[id := []])
    }

    /** `connect(from, to)`: creates both endpoints as needed, then appends
        `to` to the out-edges of `from`. Repeated and self edges are kept. */
    function WithEdge(from: string, to: string): (g: Digraph)
      ensures forall u :: u in g.adj <==> u in adj || u == from || u == to
      ensures g.adj[from] == (if from in adj then adj[from] else []) + [to]
      ensures forall u :: u in adj && u != from ==> g.adj[u] == adj[u]
      ensures to !in adj && to != from ==> g.adj[to] == []
      ensures g.nodes == WithNode(from).WithNode(to).nodes
    {
      var h := WithNode(from).WithNode(to);
      Digraph(h.nodes, h.adj[from := h.adj[from] + [to]])
    }

    /** The out-neighbours of `u` (`getOutConnections(name)`). */
    function Out(u: string): seq<string>
    {
      if u in adj then adj[u] else []
    }
  }

  /** `addNode` keeps the graph well formed. */
  lemma WithNodeValid(g: Digraph, id: string)
    requires g.Valid()
    ensures g.WithNode(id).Valid()
  {
    if id !in g.adj {
      var h := g.WithNode(id);
      forall i, j | 0 <= i < j < |h.nodes| ensures h.nodes[i] != h.nodes[j] {
        if j == |g.nodes| {
          assert h.nodes[i] == g.nodes[i];
        }
      }
    }
  }

  /** `connect` keeps the graph well formed. */
  lemma WithEdgeValid(g: Digraph, from: string, to: string)
    requires g.Valid()
    ensures g.WithEdge(from, to).Valid()
  {
    WithNodeValid(g, from);
    WithNodeValid(g.WithNode(from), to);
  }

  /** The graph object the tool builds in place. */
  class Graph {
    var nodes: seq<string>
    var adj: Adjacency

    /** The value the object currently holds. */
    function Model(): Digraph
      reads this
    {
      Digraph(nodes, adj)
    }

    constructor ()
      ensures Model() == Digraph([], map[])
      ensures Model().Valid()
    {
      nodes := [];
      adj := map[];
    }

    method AddNode(id: string)
      modifies this
      ensures Model() == old(Model()).WithNode(id)
    {
      if id !in adj {
        nodes := nodes + [id];
        adj := adj[id := []];
      }
    }

    method Connect(from: string, to: string)
      modifies this
      ensures Model() == old(Model()).WithEdge(from, to)
    {
      AddNode(from);
      AddNode(to);
      adj := adj[from := adj[from] + [to]];
    }
  }

  /** `p` follows at least one edge of `adj`. */
  ghost predicate IsWalk(adj: Adjacency, p: seq<string>)
  {
    |p| >= 2 && forall i :: 0 <= i < |p| - 1 ==> p[i] in adj && p[i + 1] in adj[p[i]]
  }

  /** `v` can be reached from `u` by one or more edges. */
  ghost predicate Reachable(adj: Adjacency, u: string, v: string)
  {
    exists p :: IsWalk(adj, p) && p[0] == u && p[|p| - 1] == v
  }

  /** `rank` is defined on a set of nodes closed under out-edges and
      strictly decreases along every edge leaving that set: a witness that
      no cycle can be reached from a ranked node. Nodes outside `rank` are
      unconstrained, so a cycle elsewhere in the graph is allowed. */
  ghost predicate Ranked(adj: Adjacency, rank: map<string, nat>)
  {
    forall u :: u in rank ==> u in adj && forall v :: v in adj[u] ==> v in rank && rank[v] < rank[u]
  }

  /** Along a walk the rank drops by at least one per edge. */
  lemma {:induction false} WalkLowersRank(adj: Adjacency, rank: map<string, nat>, p: seq<string>)
    requires Ranked(adj, rank) && IsWalk(adj, p) && p[0] in rank
    ensures p[|p| - 1] in rank
    ensures rank[p[|p| - 1]] + |p| - 1 <= rank[p[0]]
  {
    if |p| > 2 {
      assert IsWalk(adj, p[1..]);
      WalkLowersRank(adj, rank, p[1..]);
    }
  }

  /** No cycle (a walk back to its start, including a self edge) can be
      reached from a ranked node: the recursion of a walk started there
      ends. */
  lemma CycleHasNoRank(adj: Adjacency, rank: map<string, nat>, entry: string, p: seq<string>)
    requires Ranked(adj, rank) && entry in rank
    requires IsWalk(adj, p) && (p[0] == entry || Reachable(adj, entry, p[0]))
    ensures p[0] != p[|p| - 1]
  {
    if p[0] != entry {
      var q :| IsWalk(adj, q) && q[0] == entry && q[|q| - 1] == p[0];
      WalkLowersRank(adj, rank, q);
    }
    WalkLowersRank(adj, rank, p);
  }
}
