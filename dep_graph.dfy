/**
 * The table-dependency graph: nodes that own their outgoing edges, and a
 * graph that maps table names to nodes and knows its root. The depth-first
 * topological sort and the stage count live here, on top of the search and
 * placement arguments of the modules they import.
 */
module DepGraph {
  import opened Wrappers
  import opened Digraphs
  import opened Hlir
  import opened DepTypes
  import opened DepTopo
  import opened DepStages
  import opened DepDot

  class Node {
    const name: string
    const nodeType: NodeType
    const p4Node: CtrlNode
    /** `edges`: a dictionary from target to edge, kept here in insertion order. */
    var edges: seq<(string, Edge)>
    /** The graph the node is made for; a node made during a walk thus belongs to the graph the walk builds. */
    ghost const owner: Graph

    constructor (name: string, nodeType: NodeType, p4Node: CtrlNode, ghost owner: Graph)
      ensures this.name == name && this.nodeType == nodeType && this.p4Node == p4Node && this.owner == owner
      ensures edges == []
    {
      this.name := name;
      this.nodeType := nodeType;
      this.p4Node := p4Node;
      this.owner := owner;
      edges := [];
    }

    /** `add_edge`: the source asserts that there is no edge to `target` yet; the edge goes last. */
    method AddEdge(target: string, edge: Edge)
      requires target !in EdgeTargets(edges)
      modifies this
      ensures edges == old(edges) + [(target, edge)]
    {
      edges := edges + [(target, edge)];
    }
  }

  /**
   * `visit`: depth-first search from `cur`. The temporarily marked nodes
   * are exactly those on `stack`, the path that led here, so meeting one
   * again is a cycle. A search that completes has marked `cur` and all
   * that it reaches permanently and listed them, in topological order, in
   * front of the nodes listed before.
   */
  method Visit(em: EdgeLists, cur: string, mark: Marks, sorted: seq<string>, ghost stack: seq<string>, ghost adj: Adj)
    returns (ok: bool, markOut: Marks, sortedOut: seq<string>)
    requires cur in em && adj == AdjOf(em) && AdjClosed(adj) && mark.Keys == adj.Keys && MarksInRange(mark)
    requires Gray(mark) == Elems(stack) && IsPath(adj, stack + [cur])
    requires Black(mark) == Elems(sorted) && NoDup(sorted)
    requires IsTopological(adj, sorted) && BlackClosed(adj, mark)
    ensures markOut.Keys == mark.Keys && MarksInRange(markOut) && White(markOut) <= White(mark)
    ensures !ok ==> HasCycle(adj)
    ensures ok ==> && cur in Black(markOut) && Gray(markOut) == Gray(mark) && Black(mark) <= Black(markOut)
                   && Black(markOut) == Elems(sortedOut) && NoDup(sortedOut)
                   && IsTopological(adj, sortedOut) && BlackClosed(adj, markOut)
    decreases |White(mark)|, 1
  {
    if mark[cur] == 1 {
      assert cur in Gray(mark);
      BackEdgeCycle(adj, stack, cur);
      return false, mark, sorted;
    }
    if mark[cur] == 2 {
      return true, mark, sorted;
    }
    MarkTemporary(mark, cur);
    ok, markOut, sortedOut := VisitSuccessors(em, cur, mark[cur := 1], sorted, stack, adj);
    if !ok {
      return;
    }
    MarkPermanent(adj, mark, markOut, sortedOut, cur);
    markOut := markOut[cur := 2];
    sortedOut := [cur] + sortedOut;
  }

  /** The loop of `visit` over the edges of `cur`, which is marked temporarily: every successor is searched in turn. */
  method VisitSuccessors(em: EdgeLists, cur: string, mark: Marks, sorted: seq<string>, ghost stack: seq<string>, ghost adj: Adj)
    returns (ok: bool, markOut: Marks, sortedOut: seq<string>)
    requires cur in em && adj == AdjOf(em) && AdjClosed(adj) && mark.Keys == adj.Keys && MarksInRange(mark) && mark[cur] == 1
    requires Gray(mark) == Elems(stack) + {cur} && cur !in stack && IsPath(adj, stack + [cur])
    requires Black(mark) == Elems(sorted) && NoDup(sorted)
    requires IsTopological(adj, sorted) && BlackClosed(adj, mark)
    ensures markOut.Keys == mark.Keys && MarksInRange(markOut) && White(markOut) <= White(mark)
    ensures !ok ==> HasCycle(adj)
    ensures ok ==> && markOut[cur] == 1 && Gray(markOut) == Gray(mark) && Black(mark) <= Black(markOut)
                   && Black(markOut) == Elems(sortedOut) && NoDup(sortedOut) && cur !in sortedOut
                   && IsTopological(adj, sortedOut) && BlackClosed(adj, markOut)
                   && (forall v :: v in adj[cur] ==> v in sortedOut)
    decreases |White(mark)| + 1, 0
  {
    var edges := em[cur];
    assert EdgeTargets(edges) == adj[cur];
    markOut, sortedOut := mark, sorted;
    for i := 0 to |edges|
      invariant markOut.Keys == mark.Keys && MarksInRange(markOut) && markOut[cur] == 1
      invariant Gray(markOut) == Gray(mark) && White(markOut) <= White(mark)
      invariant Black(mark) <= Black(markOut)
      invariant Black(markOut) == Elems(sortedOut) && NoDup(sortedOut)
      invariant IsTopological(adj, sortedOut) && BlackClosed(adj, markOut)
      invariant forall j :: 0 <= j < i ==> EdgeTargets(edges)[j] in Black(markOut)
    {
      SubsetCard(White(markOut), White(mark));
      assert edges[i].0 in adj[cur];
      PathExtend(adj, stack + [cur], edges[i].0);
      ghost var blackBefore := Black(markOut);
      var found;
      found, markOut, sortedOut := Visit(em, edges[i].0, markOut, sortedOut, stack + [cur], adj);
      if !found {
        return false, markOut, sortedOut;
      }
      PrefixGrows(EdgeTargets(edges), i, blackBefore, Black(markOut));
    }
    assert cur !in Black(markOut);
    assert forall v :: v in adj[cur] ==> v in sortedOut by {
      forall v | v in adj[cur]
        ensures v in sortedOut
      {
        var j :| 0 <= j < |edges| && edges[j].0 == v;
      }
    }
    return true, markOut, sortedOut;
  }

  /** The loop of `topo_sorting`: a search from each node in turn, unless it is marked already, until a cycle is met. */
  method VisitAll(em: EdgeLists, order: seq<string>, mark0: Marks, ghost adj: Adj) returns (hasCycle: bool, sortedList: seq<string>)
    requires adj == AdjOf(em) && AdjClosed(adj) && NoDup(order) && Elems(order) == adj.Keys
    requires mark0.Keys == adj.Keys && White(mark0) == mark0.Keys
    ensures hasCycle <==> HasCycle(adj)
    ensures !hasCycle ==> NoDup(sortedList) && Elems(sortedList) == adj.Keys && IsTopological(adj, sortedList)
  {
    var mark := mark0;
    sortedList := [];
    hasCycle := false;
    var i := 0;
    while i < |order|
      invariant 0 <= i <= |order| && !hasCycle
      invariant mark.Keys == adj.Keys && MarksInRange(mark) && Gray(mark) == {}
      invariant Black(mark) == Elems(sortedList) && NoDup(sortedList)
      invariant IsTopological(adj, sortedList) && BlackClosed(adj, mark)
      invariant forall j :: 0 <= j < i ==> order[j] in Black(mark)
    {
      ghost var blackBefore := Black(mark);
      if mark[order[i]] == 0 {
        var found;
        found, mark, sortedList := Visit(em, order[i], mark, sortedList, [], adj);
        if !found {
          hasCycle := true;
          return;
        }
      } else {
        assert order[i] !in Gray(mark);
      }
      PrefixGrows(order, i, blackBefore, Black(mark));
      i := i + 1;
    }
    assert Elems(sortedList) == adj.Keys by {
      forall k | k in adj
        ensures k in Black(mark)
      {
        var j :| 0 <= j < |order| && order[j] == k;
      }
    }
    TopologicalMeansAcyclic(adj, sortedList);
  }

  /** The marks before the search: every listed node unmarked. */
  method Unmarked(names: seq<string>) returns (mark: Marks)
    ensures mark.Keys == Elems(names) && White(mark) == mark.Keys
  {
    mark := map[];
    for i := 0 to |names|
      invariant mark.Keys == Elems(names[..i]) && forall k :: k in mark ==> mark[k] == 0
    {
      assert names[..i + 1] == names[..i] + [names[i]];
      mark := mark[names[i] := 0];
    }
    assert names[..|names|] == names;
  }

  /** The result of `topo_sorting`: nothing without a root, otherwise whether a cycle was met and the order built so far. */
  datatype TopoResult = NoRoot | Sorted(hasCycle: bool, sortedList: seq<string>)

  class Graph {
    const name: string
    /** `nodes`: a dictionary from name to node; `order` is its insertion order. */
    var nodes: map<string, Node>
    var order: seq<string>
    var root: Option<Node>

    constructor (name: string)
      ensures this.name == name && nodes == map[] && order == [] && root == None
      ensures Valid()
    {
      this.name := name;
      nodes := map[];
      order := [];
      root := None;
    }

    /**
     * Each node is filed under its own name, `order` lists every name once,
     * edges lead to nodes of the graph and no target is listed twice, and
     * the root is one of the nodes.
     */
    ghost predicate Valid()
      reads this, nodes.Values
    {
      && NoDup(order) && Elems(order) == nodes.Keys
      && (forall k :: k in nodes ==> nodes[k].name == k)
      && (forall k :: k in nodes ==> NoDup(EdgeTargets(nodes[k].edges)))
      && AdjClosed(Adjacency())
      && (root.Some? ==> root.value.name in nodes && nodes[root.value.name] == root.value)
    }

    /** The graph as adjacency: each node's successors, in edge order. */
    ghost function Adjacency(): (adj: Adj)
      reads this, nodes.Values
      ensures adj.Keys == nodes.Keys
    {
      AdjOf(EdgeMap())
    }

    /** The edge lists of all nodes, by name. */
    function EdgeMap(): (m: EdgeLists)
      reads this, nodes.Values
      ensures m.Keys == nodes.Keys
    {
      map k | k in nodes :: nodes[k].edges
    }

    /** `get_node`: the node filed under a name, if any. */
    method GetNode(nodeName: string) returns (r: Option<Node>)
      requires forall k :: k in nodes ==> nodes[k].name == k
      ensures r.Some? <==> nodeName in nodes
      ensures r.Some? ==> r.value == nodes[nodeName] && r.value.name == nodeName
    {
      if nodeName in nodes {
        r := Some(nodes[nodeName]);
      } else {
        r := None;
      }
    }

    /** `add_node`: files a node under its name, replacing any node of that name. */
    method AddNode(node: Node)
      modifies this
      ensures nodes == old(nodes)[node.name := node]
      ensures order == if node.name in old(nodes) then old(order) else old(order) + [node.name]
      ensures root == old(root)
      ensures EdgeMap() == old(EdgeMap())[node.name := node.edges]
      ensures Info() == old(Info())[node.name := (node.nodeType, node.p4Node)]
    {
      if node.name !in nodes {
        order := order + [node.name];
      }
      nodes := nodes[node.name := node];
    }

    /** `set_root`. */
    method SetRoot(node: Node)
      modifies this
      ensures root == Some(node) && nodes == old(nodes) && order == old(order)
      ensures EdgeMap() == old(EdgeMap()) && Info() == old(Info())
    {
      root := Some(node);
      EdgeMapUnchanged(this);
    }

    /**
     * `topo_sorting`: no result without a root; otherwise a depth-first
     * search from every node still unmarked, in insertion order, stopping at
     * the first cycle. A cycle is reported exactly when the graph has one,
     * and without one every node is listed once, in topological order.
     */
    method TopoSorting() returns (r: TopoResult)
      requires Valid()
      ensures r.NoRoot? <==> root.None?
      ensures r.Sorted? ==> (r.hasCycle <==> HasCycle(Adjacency()))
      ensures r.Sorted? && !r.hasCycle ==>
                && NoDup(r.sortedList) && Elems(r.sortedList) == nodes.Keys
                && IsTopological(Adjacency(), r.sortedList)
    {
      if root.None? {
        return NoRoot;
      }
      ghost var adj := Adjacency();
      var mark := Unmarked(order);
      var hasCycle, sortedList := VisitAll(EdgeMap(), order, mark, adj);
      assert Adjacency() == adj;
      r := Sorted(hasCycle, sortedList);
    }

    /**
     * `count_min_stages`: sorts the graph, then places its tables into
     * stages along that order and counts them. It fails where the source
     * fails: without a root the sort's result cannot be unpacked, and a
     * cycle breaks its assertion. On success the count is the one the
     * source returns, and the stages form a least stage assignment of the
     * graph. Printing the stages is not modelled.
     */
    method CountMinStages() returns (r: Option<(int, seq<set<string>>)>)
      requires Valid()
      ensures r.None? <==> root.None? || HasCycle(Adjacency())
      ensures r.Some? ==> MinStages(EdgeMap(), r.value.0, r.value.1)
    {
      var sorted := TopoSorting();
      if sorted.NoRoot? || sorted.hasCycle {
        return None;
      }
      var nbStages, stageList := PlaceSorted(sorted.sortedList);
      r := Some((nbStages, stageList));
    }

    /** The placement part of `count_min_stages`, along a topological order of all tables; the graph is left as it was. */
    method PlaceSorted(sorted: seq<string>) returns (nbStages: int, stageList: seq<set<string>>)
      requires NoDup(sorted) && Elems(sorted) == nodes.Keys && IsTopological(Adjacency(), sorted)
      ensures EdgeMap() == old(EdgeMap())
      ensures MinStages(EdgeMap(), nbStages, stageList)
    {
      var em := EdgeMap();
      nbStages, stageList := AssignStages(em, sorted);
      EdgeMapUnchanged(this);
    }


    /** Each node's kind and HLIR node, by name. */
    function Info(): (m: NodeInfos)
      reads this
      ensures m.Keys == nodes.Keys
      ensures forall k :: k in nodes ==> m[k] == (nodes[k].nodeType, nodes[k].p4Node)
    {
      map k | k in nodes :: (nodes[k].nodeType, nodes[k].p4Node)
    }

    /**
     * `generate_dot`: the graph in DOT, written to the text returned. The
     * source's defaults show everything. The boxes and edge lines follow
     * the insertion order of the nodes and of each node's edges.
     */
    method GenerateDot(showControlFlow: bool := true, showConditionStr: bool := true, showFields: bool := true)
      returns (out: string)
      requires Valid() && ConditionsKnown(Info()) && EdgesWellFormed(EdgeMap())
      ensures out == DotText(name, order, Info(), EdgeMap(), showControlFlow, showConditionStr, showFields)
    {
      out := WriteDot(name, order, Info(), EdgeMap(), showControlFlow, showConditionStr, showFields);
      EdgeMapUnchanged(this);
    }
  }

  /** A graph that kept its nodes, each of which kept its fields, has the same edge lists and node kinds. */
  twostate lemma EdgeMapUnchanged(g: Graph)
    requires g.nodes == old(g.nodes) && forall k :: k in g.nodes ==> unchanged(g.nodes[k])
    ensures g.EdgeMap() == old(g.EdgeMap()) && g.Info() == old(g.Info())
  {
  }
}
