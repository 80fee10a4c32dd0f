/**
 * `generate_graph`, `generate_graph_without_cf` and the `build_table_graph_*`
 * entry points: a worklist walk over the control flow that builds a `Graph`
 * of `Node`s in place. The walk is proved to build exactly the graph that
 * `DepBuildSpec.Built` describes for the nodes reachable from the root.
 */
module DepBuild {
  import opened Wrappers
  import opened Digraphs
  import opened Hlir
  import opened DepTypes
  import opened DepDot
  import opened DepGraph
  import opened DepBuildSpec

  /**
   * What the walk keeps of a graph's bookkeeping: each node filed under its
   * name and listed in `order`, which is no longer than the dictionary, so
   * that it lists every name once (`ListedOnce`).
   */
  ghost predicate HeapOk(graph: Graph)
    reads graph
  {
    && |graph.order| == |graph.nodes|
    && (forall k :: k in graph.nodes ==> k in graph.order && graph.nodes[k].name == k && graph.nodes[k].owner == graph)
  }

  /** The graph's node kinds and edge lists, as values. */
  ghost function Snap(graph: Graph): Snapshot
    reads graph, graph.nodes.Values
  {
    Snapshot(graph.Info(), graph.EdgeMap())
  }

  /** The root, once set, stays filed under its name. */
  ghost predicate RootFiled(graph: Graph)
    reads graph
  {
    graph.root.Some? ==> graph.root.value.name in graph.nodes && graph.nodes[graph.root.value.name] == graph.root.value
  }

  /**
   * `_graph_get_or_add_node`: the node of that name if the graph has one,
   * otherwise a new node with no edges, of kind `CONDITION` for a
   * conditional and `TABLE` otherwise, added to the graph.
   */
  method GetOrAddNode(graph: Graph, g: CtrlGraph, name: string) returns (node: Node)
    requires HeapOk(graph) && RootFiled(graph) && name in g
    modifies graph
    ensures HeapOk(graph) && graph.root == old(graph.root) && RootFiled(graph)
    ensures graph.nodes == old(graph.nodes)[name := node] && node.name == name
    ensures name in old(graph.nodes) ==> node == old(graph.nodes[name])
    ensures name !in old(graph.nodes) ==> fresh(node)
    ensures graph.order == if name in old(graph.nodes) then old(graph.order) else old(graph.order) + [name]
    ensures Snap(graph) == GetOrAdd(old(Snap(graph)), g, name)
  {
    var found := graph.GetNode(name);
    if found.Some? {
      node := found.value;
      EdgeMapUnchanged(graph);
    } else {
      node := AddNewNode(graph, g, name);
    }
  }

  /** The adding half of `_graph_get_or_add_node`, for a name the graph does not have yet. */
  method AddNewNode(graph: Graph, g: CtrlGraph, name: string) returns (node: Node)
    requires HeapOk(graph) && RootFiled(graph) && name in g && name !in graph.nodes
    modifies graph
    ensures HeapOk(graph) && graph.root == old(graph.root) && RootFiled(graph)
    ensures graph.nodes == old(graph.nodes)[name := node] && node.name == name && fresh(node)
    ensures graph.order == old(graph.order) + [name]
    ensures Snap(graph) == GetOrAdd(old(Snap(graph)), g, name)
  {
    var nodeType;
    if g[name].kind.Conditional? {
      nodeType := ConditionNode;
    } else {
      nodeType := TableNode;
    }
    node := new Node(name, nodeType, g[name], graph);
    graph.AddNode(node);
  }

  /** `add_edge` on a node of the graph, as the graph sees it: only that node's edge list changes. */
  method AddEdgeInGraph(graph: Graph, node: Node, target: string, edge: Edge)
    requires HeapOk(graph) && node.name in graph.nodes && graph.nodes[node.name] == node
    requires target !in EdgeTargets(node.edges)
    modifies node
    ensures node.edges == old(node.edges) + [(target, edge)]
    ensures graph.EdgeMap() == old(graph.EdgeMap())[node.name := node.edges] && graph.Info() == old(graph.Info())
  {
    node.AddEdge(target, edge);
    forall k | k in graph.nodes && k != node.name
      ensures graph.nodes[k].edges == old(graph.nodes[k].edges)
    {
      assert graph.nodes[k].name == k;
    }
  }

  /**
   * The body shared by both loops of a visit: get or add the node `table`,
   * then `add_edge` from the visited node to it.
   */
  method AddEdgeTo(graph: Graph, g: CtrlGraph, node: Node, table: string, edge: Edge)
    requires HeapOk(graph) && RootFiled(graph) && table in g && table !in EdgeTargets(node.edges)
    requires node.name in graph.nodes && graph.nodes[node.name] == node
    modifies graph, node
    ensures HeapOk(graph) && graph.root == old(graph.root) && RootFiled(graph)
    ensures node.name in graph.nodes && graph.nodes[node.name] == node
    ensures node.edges == old(node.edges) + [(table, edge)]
    ensures Snap(graph) == AddEdgeStep(old(Snap(graph)), g, node.name, table, edge)
  {
    var nodeTo := GetOrAddNode(graph, g, table);
    AddEdgeInGraph(graph, node, nodeTo.name, edge);
  }

  /**
   * The visit of one node, once it is in the graph: an edge per entry of
   * its `dependencies_for`, then, with control flow, a control-flow edge
   * per successor that is a node and no dependency target.
   */
  method ProcessEdges(graph: Graph, g: CtrlGraph, controlFlow: bool, node: Node)
    requires NodeOk(g, node.name) && HeapOk(graph) && RootFiled(graph)
    requires node.name in graph.nodes && graph.nodes[node.name] == node && node.edges == []
    modifies graph, node
    ensures HeapOk(graph) && graph.root == old(graph.root) && RootFiled(graph)
    ensures node.name in graph.nodes && graph.nodes[node.name] == node
    ensures Snap(graph) == VisitEdges(old(Snap(graph)), g, controlFlow, node.name)
  {
    AddDependencyEdges(graph, g, node);
    if controlFlow {
      AddControlFlowEdges(graph, g, node);
    }
  }

  /** The loop over `dependencies_for`: an edge to each key, built from its dependency, in dict order. */
  method AddDependencyEdges(graph: Graph, g: CtrlGraph, node: Node)
    requires NodeOk(g, node.name) && HeapOk(graph) && RootFiled(graph)
    requires node.name in graph.nodes && graph.nodes[node.name] == node && node.edges == []
    modifies graph, node
    ensures HeapOk(graph) && graph.root == old(graph.root) && RootFiled(graph)
    ensures node.name in graph.nodes && graph.nodes[node.name] == node
    ensures node.edges == DepEdges(g[node.name].dependenciesFor)
    ensures Snap(graph) == DepSteps(old(Snap(graph)), g, node.name, g[node.name].dependenciesFor, |g[node.name].dependenciesFor|)
  {
    var ds := g[node.name].dependenciesFor;
    ghost var s0 := Snap(graph);
    for i := 0 to |ds|
      invariant HeapOk(graph) && graph.root == old(graph.root) && RootFiled(graph)
      invariant node.name in graph.nodes && graph.nodes[node.name] == node
      invariant node.edges == DepEdges(ds[..i])
      invariant Snap(graph) == DepSteps(s0, g, node.name, ds, i)
    {
      DependencyRound(graph, g, node, i);
    }
    assert ds[..|ds|] == ds;
  }

  /** One round of the loop over `dependencies_for`: the `i`-th key gets its edge, built from its dependency. */
  method DependencyRound(graph: Graph, g: CtrlGraph, node: Node, i: nat)
    requires NodeOk(g, node.name) && i < |g[node.name].dependenciesFor| && HeapOk(graph) && RootFiled(graph)
    requires node.name in graph.nodes && graph.nodes[node.name] == node
    requires node.edges == DepEdges(g[node.name].dependenciesFor[..i])
    modifies graph, node
    ensures HeapOk(graph) && graph.root == old(graph.root) && RootFiled(graph)
    ensures node.name in graph.nodes && graph.nodes[node.name] == node
    ensures node.edges == DepEdges(g[node.name].dependenciesFor[..i + 1])
    ensures var d := g[node.name].dependenciesFor[i];
            Snap(graph) == AddEdgeStep(old(Snap(graph)), g, node.name, d.0, NewEdge(Some(d.1)).value)
  {
    var ds := g[node.name].dependenciesFor;
    var (table, dep) := ds[i];
    DepPrefixStep(ds, i);
    AddEdgeTo(graph, g, node, table, NewEdge(Some(dep)).value);
  }

  /** The loop over `set(next_.values())`: a control-flow edge to each successor that is a node and no key of `dependencies_for`. */
  method AddControlFlowEdges(graph: Graph, g: CtrlGraph, node: Node)
    requires NodeOk(g, node.name) && HeapOk(graph) && RootFiled(graph)
    requires node.name in graph.nodes && graph.nodes[node.name] == node
    requires node.edges == DepEdges(g[node.name].dependenciesFor)
    modifies graph, node
    ensures HeapOk(graph) && graph.root == old(graph.root) && RootFiled(graph)
    ensures node.name in graph.nodes && graph.nodes[node.name] == node
    ensures Snap(graph) == CfSteps(old(Snap(graph)), g, node.name, g[node.name].successors, g[node.name].dependenciesFor, |g[node.name].successors|)
  {
    var ds := g[node.name].dependenciesFor;
    var next := g[node.name].successors;
    ghost var s0 := Snap(graph);
    assert node.edges == DepEdges(ds) + CfEdges(next[..0], ds);
    for j := 0 to |next|
      invariant HeapOk(graph) && graph.root == old(graph.root) && RootFiled(graph)
      invariant node.name in graph.nodes && graph.nodes[node.name] == node
      invariant node.edges == DepEdges(ds) + CfEdges(next[..j], ds)
      invariant Snap(graph) == CfSteps(s0, g, node.name, next, ds, j)
    {
      ControlFlowRound(graph, g, node, j);
    }
  }

  /** One round of the loop over the successors: the `j`-th successor gets its control-flow edge if it is a node and no dependency target. */
  method ControlFlowRound(graph: Graph, g: CtrlGraph, node: Node, j: nat)
    requires NodeOk(g, node.name) && j < |g[node.name].successors| && HeapOk(graph) && RootFiled(graph)
    requires node.name in graph.nodes && graph.nodes[node.name] == node
    requires node.edges == DepEdges(g[node.name].dependenciesFor) + CfEdges(g[node.name].successors[..j], g[node.name].dependenciesFor)
    modifies graph, node
    ensures HeapOk(graph) && graph.root == old(graph.root) && RootFiled(graph)
    ensures node.name in graph.nodes && graph.nodes[node.name] == node
    ensures node.edges == DepEdges(g[node.name].dependenciesFor) + CfEdges(g[node.name].successors[..j + 1], g[node.name].dependenciesFor)
    ensures var t := g[node.name].successors[j];
            Snap(graph) == if t.Some? && t.value !in DepKeys(g[node.name].dependenciesFor)
                           then AddEdgeStep(old(Snap(graph)), g, node.name, t.value, Edge(CONTROL_FLOW, None))
                           else old(Snap(graph))
  {
    var ds := g[node.name].dependenciesFor;
    var next := g[node.name].successors;
    var table := next[j];
    CfPrefixStep(next, ds, j);
    if table.Some? && table.value !in DepKeys(ds) {
      AddEdgeTo(graph, g, node, table.value, NewEdge(None).value);
    }
  }

  /**
   * `generate_graph` (with `controlFlow`) and `generate_graph_without_cf`
   * (without): the walk from `p4Root`, which pops the worklist in an
   * arbitrary order. Whatever that order, the graph holds exactly the
   * nodes the walk adds from the nodes reachable from the root, each with
   * the edges `ExpectedEdges` gives a visited node and none otherwise; the
   * root is the root's node, and there is none when the root is `None`.
   */
  method GenerateGraphWith(g: CtrlGraph, p4Root: Option<string>, name: string, controlFlow: bool) returns (graph: Graph)
    requires WellFormedCtrl(g) && KnownDeps(g) && (p4Root.Some? ==> p4Root.value in g)
    ensures fresh(graph) && graph.name == name && graph.Valid()
    ensures Built(g, controlFlow, Reach(g, p4Root), graph.Info(), graph.EdgeMap())
    ensures graph.root.Some? <==> p4Root.Some?
    ensures graph.root.Some? ==> graph.root.value.name == p4Root.value
    ensures ConditionsKnown(graph.Info()) && EdgesWellFormed(graph.EdgeMap())
  {
    graph := new Graph(name);
    var nextTables: set<Option<string>> := {p4Root};
    var visited: set<string> := {};
    var rootSet := false;
    WalkInit(graph, g, p4Root, controlFlow);
    while nextTables != {}
      invariant fresh(graph) && graph.name == name
      invariant WalkState(graph, g, p4Root, controlFlow, visited, nextTables, rootSet)
      decreases |g.Keys - visited|, |nextTables|
    {
      visited, nextTables, rootSet := WalkStep(graph, g, p4Root, controlFlow, visited, nextTables, rootSet);
    }
    WalkFinish(graph, g, p4Root, controlFlow, visited, rootSet);
  }

  /**
   * The state of the walk between two pops: the graph's bookkeeping, the
   * graph `Built` describes for the nodes visited, the worklist's
   * bookkeeping, and the root set exactly once something was visited.
   */
  ghost predicate WalkState(graph: Graph, g: CtrlGraph, p4Root: Option<string>, controlFlow: bool,
                            visited: set<string>, nextTables: set<Option<string>>, rootSet: bool)
    reads graph, graph.nodes.Values
  {
    && HeapOk(graph) && RootFiled(graph)
    && Built(g, controlFlow, visited, graph.Info(), graph.EdgeMap())
    && WorkOk(g, p4Root, visited, nextTables)
    && (rootSet <==> visited != {})
    && (rootSet <==> graph.root.Some?)
    && (rootSet ==> p4Root.Some? && graph.root.value.name == p4Root.value)
  }

  /** The walk starts from an empty graph with only the root waiting. */
  lemma WalkInit(graph: Graph, g: CtrlGraph, p4Root: Option<string>, controlFlow: bool)
    requires graph.nodes == map[] && graph.order == [] && graph.root == None && (p4Root.Some? ==> p4Root.value in g)
    ensures WalkState(graph, g, p4Root, controlFlow, {}, {p4Root}, false)
  {
    WorkStart(g, p4Root);
    assert graph.Info() == map[] && graph.EdgeMap() == map[];
  }

  /**
   * When nothing waits any more, the graph is valid and is the one `Built`
   * describes for all the nodes reachable from the root, which is its root.
   */
  lemma WalkFinish(graph: Graph, g: CtrlGraph, p4Root: Option<string>, controlFlow: bool, visited: set<string>, rootSet: bool)
    requires WellFormedCtrl(g) && WalkState(graph, g, p4Root, controlFlow, visited, {}, rootSet)
    ensures graph.Valid()
    ensures Built(g, controlFlow, Reach(g, p4Root), graph.Info(), graph.EdgeMap())
    ensures graph.root.Some? <==> p4Root.Some?
    ensures graph.root.Some? ==> graph.root.value.name == p4Root.value
    ensures ConditionsKnown(graph.Info()) && EdgesWellFormed(graph.EdgeMap())
  {
    WorkDone(g, p4Root, visited);
    BuiltValid(g, controlFlow, visited, graph.Info(), graph.EdgeMap());
    ListedOnce(graph.order, graph.nodes.Keys);
  }

  /**
   * One round of the walk's loop: pop a name; skip it when it is visited
   * already or `None`; otherwise visit it and queue its `next_` successors.
   * Either fewer nodes are left to visit or, with the same nodes visited,
   * fewer names wait.
   */
  method WalkStep(graph: Graph, g: CtrlGraph, p4Root: Option<string>, controlFlow: bool,
                  visited: set<string>, nextTables: set<Option<string>>, rootSet: bool)
    returns (visited': set<string>, nextTables': set<Option<string>>, rootSet': bool)
    requires WellFormedCtrl(g) && KnownDeps(g) && nextTables != {}
    requires WalkState(graph, g, p4Root, controlFlow, visited, nextTables, rootSet)
    modifies graph, graph.nodes.Values
    ensures WalkState(graph, g, p4Root, controlFlow, visited', nextTables', rootSet')
    ensures |g.Keys - visited'| < |g.Keys - visited| || (visited' == visited && |nextTables'| < |nextTables|)
  {
    var nt :| nt in nextTables;
    WorkPop(g, p4Root, visited, nextTables, nt);
    visited', nextTables', rootSet' := visited, nextTables - {nt}, rootSet;
    if nt.Some? && nt.value in visited {
      return;
    }
    if nt.None? {
      return;
    }
    var cur := nt.value;
    WorkVisit(g, p4Root, visited, nextTables, cur);
    WellFormedNodeOk(g, cur);
    VisitNode(graph, g, controlFlow, cur, !rootSet, visited);
    visited' := visited + {cur};
    rootSet' := true;
    var next := g[cur].successors;
    nextTables' := nextTables' + Elems(next);
  }

  /**
   * The body of the walk for a name popped that is not visited yet:
   * `_graph_get_or_add_node`, `set_root` on the first visit, then the
   * node's edges. The graph becomes the one `Built` describes with `cur`
   * visited as well.
   */
  method VisitNode(graph: Graph, g: CtrlGraph, controlFlow: bool, cur: string, setRoot: bool, ghost visited: set<string>)
    requires HeapOk(graph) && RootFiled(graph) && NodeOk(g, cur) && cur !in visited
    requires Built(g, controlFlow, visited, graph.Info(), graph.EdgeMap())
    modifies graph, graph.nodes.Values
    ensures HeapOk(graph) && RootFiled(graph)
    ensures Built(g, controlFlow, visited + {cur}, graph.Info(), graph.EdgeMap())
    ensures setRoot ==> graph.root.Some? && graph.root.value.name == cur
    ensures !setRoot ==> graph.root == old(graph.root)
  {
    ghost var s0 := Snap(graph);
    VisitBuilds(g, controlFlow, visited, s0, cur);
    var node := GetOrAddNode(graph, g, cur);
    if setRoot {
      graph.SetRoot(node);
    }
    ProcessEdges(graph, g, controlFlow, node);
  }

  /**
   * The bookkeeping of the worklist walk: the nodes visited and those
   * waiting are reachable from the root, every `next_` successor of a
   * visited node is visited or waiting, the root is visited or waiting,
   * and nothing but the root waits before the first visit.
   */
  ghost predicate WorkOk(g: CtrlGraph, p4Root: Option<string>, visited: set<string>, nextTables: set<Option<string>>)
  {
    WalkOk(g, Reach(g, p4Root), p4Root, visited, nextTables)
  }

  /** `WorkOk` with the reachable nodes given as `reach`. */
  ghost predicate WalkOk(g: CtrlGraph, reach: set<string>, p4Root: Option<string>, visited: set<string>, nextTables: set<Option<string>>)
  {
    && visited <= reach
    && (forall t :: Some(t) in nextTables ==> t in reach)
    && (forall k, t :: k in visited && k in g && Some(t) in g[k].successors ==> t in visited || Some(t) in nextTables)
    && (p4Root.Some? ==> p4Root.value in visited || p4Root in nextTables)
    && (visited == {} ==> nextTables <= {p4Root})
  }

  lemma WorkStart(g: CtrlGraph, p4Root: Option<string>)
    requires p4Root.Some? ==> p4Root.value in g
    ensures WorkOk(g, p4Root, {}, {p4Root})
  {
    if p4Root.Some? {
      ReachableRefl(NextAdj(g), p4Root.value);
    }
  }

  /** Popping a name already visited, or `None`, leaves the bookkeeping as it was. */
  lemma WorkPop(g: CtrlGraph, p4Root: Option<string>, visited: set<string>, nextTables: set<Option<string>>, nt: Option<string>)
    requires WorkOk(g, p4Root, visited, nextTables) && nt in nextTables
    ensures nt.None? || nt.value in visited ==> WorkOk(g, p4Root, visited, nextTables - {nt})
  {
  }

  /**
   * Visiting a waiting name that is not visited yet: it is a node, the
   * root when nothing was visited before, and once its successors wait
   * too the bookkeeping holds again, with one node fewer left to visit.
   */
  lemma WorkVisit(g: CtrlGraph, p4Root: Option<string>, visited: set<string>, nextTables: set<Option<string>>, cur: string)
    requires WellFormedCtrl(g) && WorkOk(g, p4Root, visited, nextTables) && Some(cur) in nextTables && cur !in visited
    ensures cur in g && (visited == {} ==> p4Root == Some(cur))
    ensures |g.Keys - (visited + {cur})| < |g.Keys - visited|
    ensures WorkOk(g, p4Root, visited + {cur}, nextTables - {Some(cur)} + Elems(g[cur].successors))
  {
    var reach := Reach(g, p4Root);
    assert cur in reach;
    ReachSuccessors(g, p4Root, cur);
    WalkVisit(g, reach, p4Root, visited, nextTables, cur);
    VisitShrinks(g.Keys, visited, visited, cur);
  }

  /** `WorkVisit` for a given set of reachable nodes, closed under the visited node's successors. */
  lemma WalkVisit(g: CtrlGraph, reach: set<string>, p4Root: Option<string>, visited: set<string>, nextTables: set<Option<string>>, cur: string)
    requires WalkOk(g, reach, p4Root, visited, nextTables) && Some(cur) in nextTables && cur !in visited
    requires cur in g && forall t :: Some(t) in g[cur].successors ==> t in reach
    ensures visited == {} ==> p4Root == Some(cur)
    ensures WalkOk(g, reach, p4Root, visited + {cur}, nextTables - {Some(cur)} + Elems(g[cur].successors))
  {
    var ws := nextTables - {Some(cur)} + Elems(g[cur].successors);
    forall t | Some(t) in ws
      ensures t in reach
    {
      if Some(t) !in nextTables {
        assert Some(t) in g[cur].successors;
      }
    }
    forall k, t | k in visited + {cur} && k in g && Some(t) in g[k].successors
      ensures t in visited + {cur} || Some(t) in ws
    {
      if k == cur {
        assert Some(t) in Elems(g[cur].successors);
      }
    }
  }

  /** When nothing waits any more, the visited nodes are all the nodes reachable from the root. */
  lemma WorkDone(g: CtrlGraph, p4Root: Option<string>, visited: set<string>)
    requires WorkOk(g, p4Root, visited, {})
    ensures visited == Reach(g, p4Root)
  {
    WalkComplete(g, p4Root, visited);
  }

  /** The `next_` successors of a reachable node are reachable. */
  lemma ReachSuccessors(g: CtrlGraph, p4Root: Option<string>, cur: string)
    requires WellFormedCtrl(g) && cur in Reach(g, p4Root)
    ensures forall t :: Some(t) in g[cur].successors ==> t in Reach(g, p4Root)
  {
    forall t | Some(t) in g[cur].successors
      ensures t in Reach(g, p4Root)
    {
      assert t in NextAdj(g)[cur];
      ReachableStep(NextAdj(g), p4Root.value, cur, t);
    }
  }

  /**
   * When the worklist runs dry, the visited nodes hold the root and no
   * `next_` edge leaves them, so they are all the nodes reachable from
   * the root.
   */
  lemma WalkComplete(g: CtrlGraph, p4Root: Option<string>, visited: set<string>)
    requires visited <= Reach(g, p4Root) && (p4Root.Some? ==> p4Root.value in visited)
    requires forall k, t :: k in visited && k in g && Some(t) in g[k].successors ==> t in visited
    ensures visited == Reach(g, p4Root)
  {
    if p4Root.Some? {
      var adj := NextAdj(g);
      assert Closed(adj, visited);
      forall n | n in Reach(g, p4Root)
        ensures n in visited
      {
        ClosedHoldsReachable(adj, visited, p4Root.value, n);
      }
    }
  }

  /**
   * `build_table_graph_ingress` (with `controlFlow`) and
   * `build_table_graph_ingress_without_cf` (without): the walk from the
   * first ingress entry point, in dict order, into a graph named
   * "ingress". With no ingress entry point the source's `keys()[0]` fails;
   * the result is then `None`.
   */
  method BuildTableGraphIngress(prog: Program, controlFlow: bool) returns (graph: Option<Graph>)
    requires WellFormedProgram(prog) && KnownDeps(prog.ctrl)
    ensures graph.None? <==> prog.ingress == []
    ensures graph.Some? ==>
      && fresh(graph.value) && graph.value.name == "ingress" && graph.value.Valid()
      && Built(prog.ctrl, controlFlow, Reach(prog.ctrl, Some(prog.ingress[0].0)), graph.value.Info(), graph.value.EdgeMap())
      && graph.value.root.Some? && graph.value.root.value.name == prog.ingress[0].0
  {
    if prog.ingress == [] {
      return None;
    }
    var g := GenerateGraphWith(prog.ctrl, Some(prog.ingress[0].0), "ingress", controlFlow);
    graph := Some(g);
  }

  /**
   * `build_table_graph_egress`: the walk with control-flow edges from the
   * egress entry point into a graph named "egress"; with no egress the
   * graph is empty and has no root.
   */
  method BuildTableGraphEgress(prog: Program) returns (graph: Graph)
    requires WellFormedProgram(prog) && KnownDeps(prog.ctrl)
    ensures fresh(graph) && graph.name == "egress" && graph.Valid()
    ensures Built(prog.ctrl, true, Reach(prog.ctrl, prog.egress), graph.Info(), graph.EdgeMap())
    ensures graph.root.Some? <==> prog.egress.Some?
    ensures prog.egress.None? ==> graph.nodes == map[]
  {
    graph := GenerateGraphWith(prog.ctrl, prog.egress, "egress", true);
    if prog.egress.None? {
      BuiltNothing(prog.ctrl, true, graph.Info(), graph.EdgeMap());
      assert graph.nodes.Keys == {};
    }
  }
}
