/**
 * What `generate_graph` and `generate_graph_without_cf` build, stated on
 * the HLIR alone. The walk visits the control nodes reachable from the
 * root along `next_`. Each visited node gets an edge per entry of its
 * `dependencies_for`, in dict order, and, in the graph with control flow,
 * a control-flow edge to each `next_` successor that is not already a
 * dependency target, in set order. The graph's nodes are the visited
 * nodes and the targets of their edges; every other node has no edges.
 */
module DepBuildSpec {
  import opened Wrappers
  import opened Digraphs
  import opened Hlir
  import opened DepTypes
  import opened DepDot

  /** `Node.CONDITION` for a conditional, `Node.TABLE` for anything else. */
  function TypeOf(n: CtrlNode): NodeType
  {
    if n.kind.Conditional? then ConditionNode else TableNode
  }

  /** The keys of `dependencies_for`. */
  function DepKeys(ds: seq<(string, Dep)>): set<string>
  {
    set i | 0 <= i < |ds| :: ds[i].0
  }

  /** The successors that are nodes, as a set. */
  function SomeValues(succs: seq<Option<string>>): set<string>
  {
    set i | 0 <= i < |succs| && succs[i].Some? :: succs[i].value
  }

  /** `Edge(dep)` for each entry of `dependencies_for`, in its order. */
  function DepEdges(ds: seq<(string, Dep)>): seq<(string, Edge)>
    requires KnownList(ds)
  {
    if ds == [] then []
    else DepEdges(ds[..|ds| - 1]) + [(ds[|ds| - 1].0, NewEdge(Some(ds[|ds| - 1].1)).value)]
  }

  /** `Edge()` to each successor that is a node and no key of `dependencies_for`, in order. */
  function CfEdges(succs: seq<Option<string>>, ds: seq<(string, Dep)>): seq<(string, Edge)>
  {
    if succs == [] then []
    else
      var s := succs[|succs| - 1];
      CfEdges(succs[..|succs| - 1], ds) + (if s.Some? && s.value !in DepKeys(ds) then [(s.value, Edge(CONTROL_FLOW, None))] else [])
  }

  /** The edges a visited node ends up with. */
  function ExpectedEdges(n: CtrlNode, controlFlow: bool): seq<(string, Edge)>
    requires KnownNode(n)
  {
    DepEdges(n.dependenciesFor) + (if controlFlow then CfEdges(n.successors, n.dependenciesFor) else [])
  }

  /**
   * Whether the walk, having visited `visited`, has added the node `t`:
   * it is visited, or a target of a visited node's dependencies, or (with
   * control flow) a successor of a visited node.
   */
  ghost predicate Added(g: CtrlGraph, controlFlow: bool, visited: set<string>, t: string)
  {
    || t in visited
    || (exists k :: k in visited && k in g && t in DepKeys(g[k].dependenciesFor))
    || (controlFlow && exists k :: k in visited && k in g && t in SomeValues(g[k].successors))
  }

  /** The graph's names are the added nodes and `extra`. */
  ghost predicate NamesAre(g: CtrlGraph, controlFlow: bool, visited: set<string>, extra: set<string>, em: EdgeLists)
  {
    forall t :: t in em <==> Added(g, controlFlow, visited, t) || t in extra
  }

  /** The nodes reachable from the root along `next_`; none without a root. */
  ghost function Reach(g: CtrlGraph, p4Root: Option<string>): set<string>
  {
    if p4Root.Some? then ReachableFrom(g, p4Root.value) else {}
  }

  /** Each node is built from the HLIR node of its name. */
  ghost predicate InfoFrom(g: CtrlGraph, info: NodeInfos)
  {
    forall k :: k in info ==> k in g && info[k] == (TypeOf(g[k]), g[k])
  }

  /** The visited nodes have all their edges. */
  ghost predicate VisitedEdges(g: CtrlGraph, controlFlow: bool, visited: set<string>, em: EdgeLists)
  {
    forall k :: k in em && k in visited ==> k in g && KnownNode(g[k]) && em[k] == ExpectedEdges(g[k], controlFlow)
  }

  /** Nodes outside `s` have no edges. */
  ghost predicate NoEdgesOutside(s: set<string>, em: EdgeLists)
  {
    forall k :: k in em && k !in s ==> em[k] == []
  }

  /**
   * The graph (its names, node kinds and edge lists) after the walk has
   * visited `visited`: exactly the nodes it added, each built from its
   * HLIR node, the visited ones with all their edges and the others with
   * none.
   */
  ghost predicate Built(g: CtrlGraph, controlFlow: bool, visited: set<string>,
                        info: NodeInfos, em: EdgeLists)
  {
    && NamesAre(g, controlFlow, visited, {}, em) && info.Keys == em.Keys
    && InfoFrom(g, info) && VisitedEdges(g, controlFlow, visited, em) && NoEdgesOutside(visited, em)
  }

  /** Before any visit the graph is empty. */
  lemma BuiltNothing(g: CtrlGraph, controlFlow: bool, info: NodeInfos, em: EdgeLists)
    requires Built(g, controlFlow, {}, info, em)
    ensures em == map[] && info == map[]
  {
  }

  /**
   * As `Built`, while the edges of `cur` are being added: besides the
   * nodes added so far, the names hold `extra` (`cur` and the targets of
   * its edges so far), and only `cur` may have edges among the unvisited.
   */
  ghost predicate Walking(g: CtrlGraph, controlFlow: bool, visited: set<string>, cur: string, extra: set<string>,
                          info: NodeInfos, em: EdgeLists)
  {
    && cur in g && cur !in visited
    && NamesAre(g, controlFlow, visited, extra, em) && info.Keys == em.Keys
    && InfoFrom(g, info) && VisitedEdges(g, controlFlow, visited, em) && NoEdgesOutside(visited + {cur}, em)
  }

  /** The walk, with `done` the edges of `cur` so far. */
  ghost predicate Partial(g: CtrlGraph, controlFlow: bool, visited: set<string>, cur: string, done: seq<(string, Edge)>,
                          info: NodeInfos, em: EdgeLists)
  {
    Walking(g, controlFlow, visited, cur, {cur} + Elems(EdgeTargets(done)), info, em) && cur in em && em[cur] == done
  }

  lemma InfoFromAdd(g: CtrlGraph, info: NodeInfos, t: string)
    requires InfoFrom(g, info) && t in g
    ensures InfoFrom(g, info[t := (TypeOf(g[t]), g[t])])
  {
  }

  lemma VisitedEdgesUpdate(g: CtrlGraph, controlFlow: bool, visited: set<string>, em: EdgeLists, k: string, es: seq<(string, Edge)>)
    requires VisitedEdges(g, controlFlow, visited, em) && k !in visited
    ensures VisitedEdges(g, controlFlow, visited, em[k := es])
  {
  }

  lemma NoEdgesOutsideUpdate(s: set<string>, em: EdgeLists, k: string, es: seq<(string, Edge)>)
    requires NoEdgesOutside(s, em) && (k in s || es == [])
    ensures NoEdgesOutside(s, em[k := es])
  {
  }

  lemma NamesGrow(g: CtrlGraph, controlFlow: bool, visited: set<string>, extra: set<string>, em: EdgeLists, em': EdgeLists, t: string)
    requires NamesAre(g, controlFlow, visited, extra, em) && em'.Keys == em.Keys + {t}
    ensures NamesAre(g, controlFlow, visited, extra + {t}, em')
  {
  }

  /** `_graph_get_or_add_node` on `cur` starts its visit: it is a node, and has no edges yet. */
  lemma StartVisit(g: CtrlGraph, controlFlow: bool, visited: set<string>, cur: string,
                   info: NodeInfos, em: EdgeLists,
                   info': NodeInfos, em': EdgeLists)
    requires Built(g, controlFlow, visited, info, em) && cur in g && cur !in visited
    requires info' == if cur in em then info else info[cur := (TypeOf(g[cur]), g[cur])]
    requires em' == if cur in em then em else em[cur := []]
    ensures Partial(g, controlFlow, visited, cur, [], info', em')
  {
    assert Elems(EdgeTargets([])) == {};
    assert NamesAre(g, controlFlow, visited, {cur} + Elems(EdgeTargets([])), em');
    if cur !in em {
      InfoFromAdd(g, info, cur);
      VisitedEdgesUpdate(g, controlFlow, visited, em, cur, []);
      NoEdgesOutsideUpdate(visited, em, cur, []);
    }
    assert NoEdgesOutside(visited + {cur}, em');
  }

  /** A name already in the graph may be counted among the extra ones. */
  lemma WalkingHas(g: CtrlGraph, controlFlow: bool, visited: set<string>, cur: string, extra: set<string>,
                   info: NodeInfos, em: EdgeLists, t: string)
    requires Walking(g, controlFlow, visited, cur, extra, info, em) && t in em
    ensures Walking(g, controlFlow, visited, cur, extra + {t}, info, em)
  {
  }

  /** `_graph_get_or_add_node` on a target `t` not yet in the graph adds it with no edges. */
  lemma VisitAddNode(g: CtrlGraph, controlFlow: bool, visited: set<string>, cur: string, extra: set<string>,
                     info: NodeInfos, em: EdgeLists, t: string)
    requires Walking(g, controlFlow, visited, cur, extra, info, em) && t in g && t !in em
    ensures Walking(g, controlFlow, visited, cur, extra + {t}, info[t := (TypeOf(g[t]), g[t])], em[t := []])
  {
    InfoFromAdd(g, info, t);
    VisitedEdgesUpdate(g, controlFlow, visited, em, t, []);
    NoEdgesOutsideUpdate(visited + {cur}, em, t, []);
    NamesGrow(g, controlFlow, visited, extra, em, em[t := []], t);
  }

  /** `add_edge` from `cur` to the node `t` extends the visit of `cur` by that edge. */
  lemma VisitAddEdge(g: CtrlGraph, controlFlow: bool, visited: set<string>, cur: string, done: seq<(string, Edge)>,
                     info: NodeInfos, em: EdgeLists, t: string, e: Edge)
    requires Walking(g, controlFlow, visited, cur, {cur} + Elems(EdgeTargets(done)) + {t}, info, em)
    requires cur in em && em[cur] == done
    ensures Partial(g, controlFlow, visited, cur, done + [(t, e)], info, em[cur := done + [(t, e)]])
  {
    assert EdgeTargets(done + [(t, e)]) == EdgeTargets(done) + [t];
    assert Elems(EdgeTargets(done) + [t]) == Elems(EdgeTargets(done)) + {t};
    VisitedEdgesUpdate(g, controlFlow, visited, em, cur, done + [(t, e)]);
    NoEdgesOutsideUpdate(visited + {cur}, em, cur, done + [(t, e)]);
  }

  /** Position by position, `DepEdges` is `Edge(dep)` of each entry. */
  lemma {:induction false} DepEdgesAt(ds: seq<(string, Dep)>)
    requires KnownList(ds)
    ensures |DepEdges(ds)| == |ds|
    ensures forall i :: 0 <= i < |ds| ==> DepEdges(ds)[i] == (ds[i].0, NewEdge(Some(ds[i].1)).value)
  {
    if ds != [] {
      DepEdgesAt(ds[..|ds| - 1]);
    }
  }

  /** One more entry of `dependencies_for` adds its edge; with distinct keys, to a target not yet listed. */
  lemma DepPrefixStep(ds: seq<(string, Dep)>, i: nat)
    requires KnownList(ds)
    requires forall a, b :: 0 <= a < b < |ds| ==> ds[a].0 != ds[b].0
    requires i < |ds|
    ensures DepEdges(ds[..i + 1]) == DepEdges(ds[..i]) + [(ds[i].0, NewEdge(Some(ds[i].1)).value)]
    ensures ds[i].0 !in EdgeTargets(DepEdges(ds[..i]))
  {
    assert ds[..i + 1][..i] == ds[..i];
    DepEdgesAt(ds[..i]);
  }

  /** One more successor adds its control-flow edge, if any; without repeated successors, to a target not yet listed. */
  lemma CfPrefixStep(succs: seq<Option<string>>, ds: seq<(string, Dep)>, j: nat)
    requires KnownList(ds)
    requires NoDup(succs) && j < |succs|
    ensures DepEdges(ds) + CfEdges(succs[..j + 1], ds) == DepEdges(ds) + CfEdges(succs[..j], ds)
              + (if succs[j].Some? && succs[j].value !in DepKeys(ds) then [(succs[j].value, Edge(CONTROL_FLOW, None))] else [])
    ensures succs[j].Some? && succs[j].value !in DepKeys(ds) ==>
              succs[j].value !in EdgeTargets(DepEdges(ds) + CfEdges(succs[..j], ds))
  {
    assert succs[..j + 1][..j] == succs[..j];
    var s := succs[j];
    var tail := if s.Some? && s.value !in DepKeys(ds) then [(s.value, Edge(CONTROL_FLOW, None))] else [];
    assert CfEdges(succs[..j + 1], ds) == CfEdges(succs[..j], ds) + tail;
    assert DepEdges(ds) + (CfEdges(succs[..j], ds) + tail) == DepEdges(ds) + CfEdges(succs[..j], ds) + tail;
    if s.Some? && s.value !in DepKeys(ds) {
      DepEdgesAt(ds);
      CfEdgesAre(succs[..j], ds);
      EdgeTargetsAppend(DepEdges(ds), CfEdges(succs[..j], ds));
      forall x | x in EdgeTargets(DepEdges(ds))
        ensures x != s.value
      {
        var a :| 0 <= a < |ds| && EdgeTargets(DepEdges(ds))[a] == x;
        assert ds[a] in ds;
      }
      forall x | x in EdgeTargets(CfEdges(succs[..j], ds))
        ensures x != s.value
      {
        var b :| 0 <= b < |CfEdges(succs[..j], ds)| && EdgeTargets(CfEdges(succs[..j], ds))[b] == x;
        assert CfEdges(succs[..j], ds)[b] in CfEdges(succs[..j], ds);
        var c :| 0 <= c < j && succs[c] == Some(x);
        assert succs[c] != succs[j];
      }
    }
  }

  /** The control-flow edges are exactly those to the successors that are nodes and no dependency target; without repeated successors, no target twice. */
  lemma {:induction false} CfEdgesAre(succs: seq<Option<string>>, ds: seq<(string, Dep)>)
    ensures forall e :: e in CfEdges(succs, ds) <==>
              e.1 == Edge(CONTROL_FLOW, None) && Some(e.0) in succs && e.0 !in DepKeys(ds)
    ensures NoDup(succs) ==> NoDup(EdgeTargets(CfEdges(succs, ds)))
  {
    if succs != [] {
      var front := succs[..|succs| - 1];
      var s := succs[|succs| - 1];
      CfEdgesAre(front, ds);
      assert succs == front + [s];
      var tail := if s.Some? && s.value !in DepKeys(ds) then [(s.value, Edge(CONTROL_FLOW, None))] else [];
      assert CfEdges(succs, ds) == CfEdges(front, ds) + tail;
      if NoDup(succs) {
        assert NoDup(front) by {
          forall i, j | 0 <= i < j < |front|
            ensures front[i] != front[j]
          {
            assert front[i] == succs[i] && front[j] == succs[j];
          }
        }
        assert s !in front by {
          forall i | 0 <= i < |front|
            ensures front[i] != s
          {
            assert front[i] == succs[i];
          }
        }
        var ts := EdgeTargets(CfEdges(front, ds));
        assert EdgeTargets(CfEdges(succs, ds)) == ts + EdgeTargets(tail);
        if tail != [] {
          assert s.value !in ts by {
            forall i | 0 <= i < |ts|
              ensures ts[i] != s.value
            {
              assert CfEdges(front, ds)[i] in CfEdges(front, ds);
            }
          }
        }
      }
    }
  }

  /** The targets of a visited node's edges: its dependency keys, and in the graph with control flow its successors that are nodes. */
  lemma ExpectedTargets(n: CtrlNode, controlFlow: bool)
    requires KnownNode(n)
    ensures Elems(EdgeTargets(ExpectedEdges(n, controlFlow)))
            == DepKeys(n.dependenciesFor) + (if controlFlow then SomeValues(n.successors) else {})
  {
    var ds := n.dependenciesFor;
    DepEdgesAt(ds);
    CfEdgesAre(n.successors, ds);
    var r := ExpectedEdges(n, controlFlow);
    forall t | t in Elems(EdgeTargets(r))
      ensures t in DepKeys(ds) + (if controlFlow then SomeValues(n.successors) else {})
    {
      var i :| 0 <= i < |r| && r[i].0 == t;
      if i < |ds| {
        assert ds[i] in ds;
      } else {
        assert r[i] in CfEdges(n.successors, ds);
      }
    }
    forall t | t in DepKeys(ds) + (if controlFlow then SomeValues(n.successors) else {})
      ensures t in Elems(EdgeTargets(r))
    {
      if t in DepKeys(ds) {
        var i :| 0 <= i < |ds| && ds[i].0 == t;
        assert r[i].0 == t;
      } else {
        var m :| 0 <= m < |n.successors| && n.successors[m].Some? && n.successors[m].value == t;
        assert Some(t) in n.successors;
        var e := (t, Edge(CONTROL_FLOW, None));
        assert e in CfEdges(n.successors, ds);
        var j :| 0 <= j < |CfEdges(n.successors, ds)| && CfEdges(n.successors, ds)[j] == e;
        assert r[|DepEdges(ds)| + j] == e;
      }
    }
  }

  /** A consistent node's edges lead to distinct targets, so `add_edge`'s assertion holds. */
  lemma ExpectedNoDup(n: CtrlNode, controlFlow: bool)
    requires KnownNode(n) && ConsistentNode(n)
    ensures NoDup(EdgeTargets(ExpectedEdges(n, controlFlow)))
  {
    var ds := n.dependenciesFor;
    var cf := if controlFlow then CfEdges(n.successors, ds) else [];
    DepEdgesAt(ds);
    CfEdgesAre(n.successors, ds);
    var a := EdgeTargets(DepEdges(ds));
    var b := EdgeTargets(cf);
    assert NoDup(a) by {
      forall i, j | 0 <= i < j < |a|
        ensures a[i] != a[j]
      {
        assert a[i] == ds[i].0 && a[j] == ds[j].0;
      }
    }
    assert NoDup(b);
    if controlFlow {
      forall x, j | x in a && 0 <= j < |b|
        ensures b[j] != x
      {
        var i :| 0 <= i < |a| && a[i] == x;
        assert ds[i] in ds;
        assert cf[j] in CfEdges(n.successors, ds);
      }
    }
    NoDupAppend(a, b);
    EdgeTargetsAppend(DepEdges(ds), cf);
  }

  /** A visited node's edges are as `Edge(dep)` and `Edge()` build them. */
  lemma ExpectedWellFormed(n: CtrlNode, controlFlow: bool)
    requires KnownNode(n)
    ensures forall i :: 0 <= i < |ExpectedEdges(n, controlFlow)| ==> WellFormedEdge(ExpectedEdges(n, controlFlow)[i].1)
  {
    var ds := n.dependenciesFor;
    DepEdgesAt(ds);
    CfEdgesAre(n.successors, ds);
    var r := ExpectedEdges(n, controlFlow);
    forall i | 0 <= i < |r|
      ensures WellFormedEdge(r[i].1)
    {
      if i < |ds| {
        assert ds[i] in ds;
      } else {
        assert r[i] in CfEdges(n.successors, ds);
      }
    }
  }

  /** Finishing the visit of `cur` with all its edges makes it visited. */
  lemma FinishVisit(g: CtrlGraph, controlFlow: bool, visited: set<string>, cur: string, done: seq<(string, Edge)>,
                    info: NodeInfos, em: EdgeLists)
    requires Partial(g, controlFlow, visited, cur, done, info, em)
    requires KnownNode(g[cur]) && done == ExpectedEdges(g[cur], controlFlow)
    ensures Built(g, controlFlow, visited + {cur}, info, em)
  {
    ExpectedTargets(g[cur], controlFlow);
    var n := g[cur];
    forall v
      ensures v in em <==> Added(g, controlFlow, visited + {cur}, v)
    {
      if v in Elems(EdgeTargets(done)) {
        if v in DepKeys(n.dependenciesFor) {
          assert cur in visited + {cur} && cur in g && v in DepKeys(g[cur].dependenciesFor);
        } else {
          assert cur in visited + {cur} && cur in g && v in SomeValues(g[cur].successors);
        }
      }
      if Added(g, controlFlow, visited + {cur}, v) && v != cur && !Added(g, controlFlow, visited, v) {
        if k :| k in visited + {cur} && k in g && v in DepKeys(g[k].dependenciesFor) {
          assert k == cur;
        } else {
          var k :| k in visited + {cur} && k in g && v in SomeValues(g[k].successors);
          assert k == cur;
        }
        assert v in Elems(EdgeTargets(done));
      }
    }
    assert VisitedEdges(g, controlFlow, visited + {cur}, em);
  }

  // The walk step by step, on values: what each `_graph_get_or_add_node`
  // and `add_edge` of a visit does to the node kinds and edge lists.

  /** A graph's node kinds and HLIR nodes, and its edge lists, by name. */
  datatype Snapshot = Snapshot(info: NodeInfos, em: EdgeLists)

  /** Every key of `dependencies_for` is a node of the graph. */
  ghost predicate KeysIn(ds: seq<(string, Dep)>, g: CtrlGraph)
  {
    forall i :: 0 <= i < |ds| ==> ds[i].0 in g
  }

  /** Every successor that is a node is a node of the graph. */
  ghost predicate SuccsIn(succs: seq<Option<string>>, g: CtrlGraph)
  {
    forall i :: 0 <= i < |succs| && succs[i].Some? ==> succs[i].value in g
  }

  /** What the HLIR guarantees of a node being visited: consistent, with known dependencies, naming only nodes of the graph. */
  ghost predicate NodeOk(g: CtrlGraph, k: string)
  {
    && k in g && ConsistentNode(g[k]) && KnownNode(g[k])
    && KeysIn(g[k].dependenciesFor, g) && SuccsIn(g[k].successors, g)
  }

  lemma WellFormedNodeOk(g: CtrlGraph, k: string)
    requires WellFormedCtrl(g) && KnownDeps(g) && k in g
    ensures NodeOk(g, k)
  {
    var n := g[k];
    forall i | 0 <= i < |n.dependenciesFor|
      ensures n.dependenciesFor[i].0 in g
    {
      assert n.dependenciesFor[i] in n.dependenciesFor;
    }
    forall i | 0 <= i < |n.successors| && n.successors[i].Some?
      ensures n.successors[i].value in g
    {
      assert n.successors[i] in n.successors;
    }
  }

  /** `_graph_get_or_add_node` on `t`: a name not in the graph is added with no edges. */
  function GetOrAdd(s: Snapshot, g: CtrlGraph, t: string): Snapshot
    requires t in g
  {
    if t in s.em then s else Snapshot(s.info[t := (TypeOf(g[t]), g[t])], s.em[t := []])
  }

  /** `_graph_get_or_add_node` on `t`, then `add_edge` from `cur` to it. */
  function AddEdgeStep(s: Snapshot, g: CtrlGraph, cur: string, t: string, e: Edge): Snapshot
    requires t in g && cur in s.em
  {
    var s1 := GetOrAdd(s, g, t);
    Snapshot(s1.info, s1.em[cur := s1.em[cur] + [(t, e)]])
  }

  /** The first `n` rounds of the loop over `dependencies_for`, one `AddEdgeStep` per entry. */
  function DepSteps(s: Snapshot, g: CtrlGraph, cur: string, ds: seq<(string, Dep)>, n: nat): (r: Snapshot)
    requires cur in s.em && KnownList(ds) && KeysIn(ds, g) && n <= |ds|
    ensures s.em.Keys <= r.em.Keys
  {
    if n == 0 then s
    else AddEdgeStep(DepSteps(s, g, cur, ds, n - 1), g, cur, ds[n - 1].0, NewEdge(Some(ds[n - 1].1)).value)
  }

  /**
   * The first `n` rounds of the loop over the successors: one
   * `AddEdgeStep` per successor that is a node and no key of
   * `dependencies_for`.
   */
  function CfSteps(s: Snapshot, g: CtrlGraph, cur: string, succs: seq<Option<string>>, ds: seq<(string, Dep)>, n: nat): (r: Snapshot)
    requires cur in s.em && SuccsIn(succs, g) && n <= |succs|
    ensures s.em.Keys <= r.em.Keys
  {
    if n == 0 then s
    else
      var t := succs[n - 1];
      var s' := CfSteps(s, g, cur, succs, ds, n - 1);
      if t.Some? && t.value !in DepKeys(ds) then AddEdgeStep(s', g, cur, t.value, Edge(CONTROL_FLOW, None)) else s'
  }

  /** The edges of a visit: the dependency loop, then, with control flow, the successor loop. */
  function VisitEdges(s: Snapshot, g: CtrlGraph, controlFlow: bool, cur: string): Snapshot
    requires NodeOk(g, cur) && cur in s.em
  {
    var n := g[cur];
    var s1 := DepSteps(s, g, cur, n.dependenciesFor, |n.dependenciesFor|);
    if controlFlow then CfSteps(s1, g, cur, n.successors, n.dependenciesFor, |n.successors|) else s1
  }

  /** A step of the walk extends the visit of `cur` by the edge it adds. */
  lemma AddEdgeStepPartial(g: CtrlGraph, controlFlow: bool, visited: set<string>, cur: string, done: seq<(string, Edge)>,
                           s: Snapshot, t: string, e: Edge)
    requires Partial(g, controlFlow, visited, cur, done, s.info, s.em) && t in g
    ensures Partial(g, controlFlow, visited, cur, done + [(t, e)], AddEdgeStep(s, g, cur, t, e).info, AddEdgeStep(s, g, cur, t, e).em)
  {
    var extra := {cur} + Elems(EdgeTargets(done));
    var s1 := GetOrAdd(s, g, t);
    if t in s.em {
      WalkingHas(g, controlFlow, visited, cur, extra, s.info, s.em, t);
    } else {
      VisitAddNode(g, controlFlow, visited, cur, extra, s.info, s.em, t);
    }
    VisitAddEdge(g, controlFlow, visited, cur, done, s1.info, s1.em, t, e);
  }

  lemma DepEdgesSnoc(ds: seq<(string, Dep)>, n: nat)
    requires KnownList(ds) && 0 < n <= |ds|
    ensures DepEdges(ds[..n]) == DepEdges(ds[..n - 1]) + [(ds[n - 1].0, NewEdge(Some(ds[n - 1].1)).value)]
  {
    assert ds[..n][..n - 1] == ds[..n - 1];
  }

  lemma CfEdgesSnoc(succs: seq<Option<string>>, ds: seq<(string, Dep)>, n: nat)
    requires 0 < n <= |succs|
    ensures succs[n - 1].Some? && succs[n - 1].value !in DepKeys(ds) ==>
              CfEdges(succs[..n], ds) == CfEdges(succs[..n - 1], ds) + [(succs[n - 1].value, Edge(CONTROL_FLOW, None))]
    ensures !(succs[n - 1].Some? && succs[n - 1].value !in DepKeys(ds)) ==> CfEdges(succs[..n], ds) == CfEdges(succs[..n - 1], ds)
  {
    assert succs[..n][..n - 1] == succs[..n - 1];
  }

  lemma AppendAssoc<T>(a: seq<T>, b: seq<T>, c: seq<T>)
    ensures a + (b + c) == a + b + c
  {
  }

  /** The first `n` rounds of the dependency loop add the edges `DepEdges` lists for the first `n` entries. */
  lemma {:induction false} DepStepsPartial(g: CtrlGraph, controlFlow: bool, visited: set<string>, cur: string,
                                           done: seq<(string, Edge)>, s: Snapshot, ds: seq<(string, Dep)>, n: nat)
    requires Partial(g, controlFlow, visited, cur, done, s.info, s.em) && KnownList(ds) && KeysIn(ds, g) && n <= |ds|
    ensures Partial(g, controlFlow, visited, cur, done + DepEdges(ds[..n]), DepSteps(s, g, cur, ds, n).info, DepSteps(s, g, cur, ds, n).em)
  {
    if n == 0 {
      assert done + DepEdges(ds[..0]) == done;
    } else {
      DepStepsPartial(g, controlFlow, visited, cur, done, s, ds, n - 1);
      var e := NewEdge(Some(ds[n - 1].1)).value;
      AddEdgeStepPartial(g, controlFlow, visited, cur, done + DepEdges(ds[..n - 1]), DepSteps(s, g, cur, ds, n - 1), ds[n - 1].0, e);
      DepEdgesSnoc(ds, n);
      AppendAssoc(done, DepEdges(ds[..n - 1]), [(ds[n - 1].0, e)]);
    }
  }

  /** The first `n` rounds of the successor loop add the edges `CfEdges` lists for the first `n` successors. */
  lemma {:induction false} CfStepsPartial(g: CtrlGraph, controlFlow: bool, visited: set<string>, cur: string,
                                          done: seq<(string, Edge)>, s: Snapshot, succs: seq<Option<string>>, ds: seq<(string, Dep)>, n: nat)
    requires Partial(g, controlFlow, visited, cur, done, s.info, s.em) && SuccsIn(succs, g) && n <= |succs|
    ensures Partial(g, controlFlow, visited, cur, done + CfEdges(succs[..n], ds),
                    CfSteps(s, g, cur, succs, ds, n).info, CfSteps(s, g, cur, succs, ds, n).em)
  {
    if n == 0 {
      assert done + CfEdges(succs[..0], ds) == done;
    } else {
      CfStepsPartial(g, controlFlow, visited, cur, done, s, succs, ds, n - 1);
      var t := succs[n - 1];
      CfEdgesSnoc(succs, ds, n);
      if t.Some? && t.value !in DepKeys(ds) {
        var e := Edge(CONTROL_FLOW, None);
        AddEdgeStepPartial(g, controlFlow, visited, cur, done + CfEdges(succs[..n - 1], ds), CfSteps(s, g, cur, succs, ds, n - 1), t.value, e);
        AppendAssoc(done, CfEdges(succs[..n - 1], ds), [(t.value, e)]);
      }
    }
  }

  /**
   * A visit, step by step, builds what `Built` describes: the graph of the
   * nodes visited so far becomes that of one more visited node. The node
   * visited has no edges when its visit starts.
   */
  lemma VisitBuilds(g: CtrlGraph, controlFlow: bool, visited: set<string>, s: Snapshot, cur: string)
    requires Built(g, controlFlow, visited, s.info, s.em) && NodeOk(g, cur) && cur !in visited
    ensures cur in GetOrAdd(s, g, cur).em && GetOrAdd(s, g, cur).em[cur] == []
    ensures Built(g, controlFlow, visited + {cur},
                  VisitEdges(GetOrAdd(s, g, cur), g, controlFlow, cur).info, VisitEdges(GetOrAdd(s, g, cur), g, controlFlow, cur).em)
  {
    var s1 := GetOrAdd(s, g, cur);
    var n := g[cur];
    StartVisit(g, controlFlow, visited, cur, s.info, s.em, s1.info, s1.em);
    var ds := n.dependenciesFor;
    DepStepsPartial(g, controlFlow, visited, cur, [], s1, ds, |ds|);
    var s2 := DepSteps(s1, g, cur, ds, |ds|);
    assert ds[..|ds|] == ds;
    assert [] + DepEdges(ds) == DepEdges(ds);
    if controlFlow {
      CfStepsPartial(g, controlFlow, visited, cur, DepEdges(ds), s2, n.successors, ds, |n.successors|);
      assert n.successors[..|n.successors|] == n.successors;
    } else {
      assert DepEdges(n.dependenciesFor) == DepEdges(n.dependenciesFor) + [];
    }
    var s3 := VisitEdges(s1, g, controlFlow, cur);
    FinishVisit(g, controlFlow, visited, cur, ExpectedEdges(n, controlFlow), s3.info, s3.em);
  }

  /**
   * A built graph satisfies what `Graph` and `generate_dot` rely on: no
   * node has two edges to the same target, every edge leads to a node of
   * the graph, every edge is well formed and every condition node stands
   * for a conditional.
   */
  lemma BuiltValid(g: CtrlGraph, controlFlow: bool, visited: set<string>,
                   info: NodeInfos, em: EdgeLists)
    requires WellFormedCtrl(g) && Built(g, controlFlow, visited, info, em)
    ensures forall k :: k in em ==> NoDup(EdgeTargets(em[k]))
    ensures AdjClosed(AdjOf(em))
    ensures EdgesWellFormed(em) && ConditionsKnown(info)
  {
    forall k | k in em
      ensures NoDup(EdgeTargets(em[k]))
      ensures forall i :: 0 <= i < |em[k]| ==> WellFormedEdge(em[k][i].1)
      ensures forall v :: v in EdgeTargets(em[k]) ==> v in em
    {
      if k in visited {
        ExpectedNoDup(g[k], controlFlow);
        ExpectedWellFormed(g[k], controlFlow);
        ExpectedTargets(g[k], controlFlow);
        forall v | v in EdgeTargets(em[k])
          ensures v in em
        {
          assert v in Elems(EdgeTargets(em[k]));
          if v in DepKeys(g[k].dependenciesFor) {
            var i :| 0 <= i < |g[k].dependenciesFor| && g[k].dependenciesFor[i].0 == v;
            assert g[k].dependenciesFor[i] in g[k].dependenciesFor;
            assert Added(g, controlFlow, visited, v);
          } else {
            var i :| 0 <= i < |g[k].successors| && g[k].successors[i].Some? && g[k].successors[i].value == v;
            assert g[k].successors[i] in g[k].successors;
            assert Added(g, controlFlow, visited, v);
          }
        }
      }
    }
  }

  /** `generate_graph` keeps all of the dependency edges of `generate_graph_without_cf` and adds only control-flow edges. */
  function DropControlFlow(es: seq<(string, Edge)>): seq<(string, Edge)>
  {
    if es == [] then []
    else DropControlFlow(es[..|es| - 1]) + (if es[|es| - 1].1.code == CONTROL_FLOW then [] else [es[|es| - 1]])
  }

  lemma {:induction false} DropControlFlowAppend(a: seq<(string, Edge)>, b: seq<(string, Edge)>)
    ensures DropControlFlow(a + b) == DropControlFlow(a) + DropControlFlow(b)
  {
    if b != [] {
      var b' := b[..|b| - 1];
      assert (a + b)[..|a + b| - 1] == a + b';
      DropControlFlowAppend(a, b');
    } else {
      assert a + b == a;
    }
  }

  lemma {:induction false} DropControlFlowDeps(ds: seq<(string, Dep)>)
    requires KnownList(ds)
    ensures DropControlFlow(DepEdges(ds)) == DepEdges(ds)
  {
    if ds != [] {
      var front := ds[..|ds| - 1];
      DropControlFlowDeps(front);
      assert ds[|ds| - 1] in ds;
      DropControlFlowAppend(DepEdges(front), [(ds[|ds| - 1].0, NewEdge(Some(ds[|ds| - 1].1)).value)]);
      assert [(ds[|ds| - 1].0, NewEdge(Some(ds[|ds| - 1].1)).value)][..0] == [];
    }
  }

  lemma {:induction false} DropControlFlowCf(succs: seq<Option<string>>, ds: seq<(string, Dep)>)
    ensures DropControlFlow(CfEdges(succs, ds)) == []
  {
    if succs != [] {
      var front := succs[..|succs| - 1];
      var s := succs[|succs| - 1];
      DropControlFlowCf(front, ds);
      var tail := if s.Some? && s.value !in DepKeys(ds) then [(s.value, Edge(CONTROL_FLOW, None))] else [];
      DropControlFlowAppend(CfEdges(front, ds), tail);
      if tail != [] {
        assert tail[..0] == [];
      }
    }
  }

  /** Once the visited nodes are closed under `next_`, the graph with control flow adds no node the graph without it lacks. */
  lemma AddedWithoutCf(g: CtrlGraph, r: set<string>)
    requires Closed(NextAdj(g), r)
    ensures forall v :: Added(g, true, r, v) <==> Added(g, false, r, v)
  {
    forall v, k | k in r && k in g && v in SomeValues(g[k].successors)
      ensures v in r
    {
      var i :| 0 <= i < |g[k].successors| && g[k].successors[i].Some? && g[k].successors[i].value == v;
      assert g[k].successors[i] in g[k].successors;
      assert v in NextAdj(g)[k];
    }
  }

  /**
   * The same walk with and without control flow adds the same nodes, and
   * each node's edges without control flow are its edges with control flow
   * less the control-flow ones, in the same order.
   */
  lemma WithoutCfDropsOnlyControlFlow(g: CtrlGraph, r: set<string>,
                                      info: NodeInfos, em: EdgeLists,
                                      info': NodeInfos, em': EdgeLists)
    requires Built(g, true, r, info, em) && Built(g, false, r, info', em')
    requires Closed(NextAdj(g), r)
    ensures em.Keys == em'.Keys && info == info'
    ensures forall k :: k in em ==> em'[k] == DropControlFlow(em[k])
  {
    AddedWithoutCf(g, r);
    assert em.Keys == em'.Keys;
    forall k | k in em
      ensures em'[k] == DropControlFlow(em[k])
    {
      if k in r {
        var n := g[k];
        DropControlFlowAppend(DepEdges(n.dependenciesFor), CfEdges(n.successors, n.dependenciesFor));
        DropControlFlowDeps(n.dependenciesFor);
        DropControlFlowCf(n.successors, n.dependenciesFor);
        assert DepEdges(n.dependenciesFor) + [] == DepEdges(n.dependenciesFor);
      }
    }
  }

  /**
   * In the graph with control flow, every `next_` successor of a visited
   * node is an edge target, by a dependency edge or a control-flow one;
   * a control-flow edge appears only where no dependency edge does.
   */
  lemma ControlFlowCovered(g: CtrlGraph, visited: set<string>, info: NodeInfos, em: EdgeLists, k: string)
    requires Built(g, true, visited, info, em) && k in visited
    ensures forall t :: Some(t) in g[k].successors ==> t in EdgeTargets(em[k])
    ensures forall e :: e in em[k] && e.1.code == CONTROL_FLOW ==> e.0 !in DepKeys(g[k].dependenciesFor)
  {
    ExpectedTargets(g[k], true);
    CfEdgesAre(g[k].successors, g[k].dependenciesFor);
    DepEdgesAt(g[k].dependenciesFor);
    var ds := g[k].dependenciesFor;
    forall t | Some(t) in g[k].successors
      ensures t in EdgeTargets(em[k])
    {
      assert t in SomeValues(g[k].successors);
      assert t in Elems(EdgeTargets(em[k]));
    }
    forall e | e in em[k] && e.1.code == CONTROL_FLOW
      ensures e.0 !in DepKeys(ds)
    {
      var i :| 0 <= i < |em[k]| && em[k][i] == e;
      if i >= |ds| {
        assert e in CfEdges(g[k].successors, ds);
      }
    }
  }
}
