/**
 * The vocabulary of the table-dependency graph: the dependency codes, which
 * are ordered from weakest (control flow) to strongest (match), the kinds of
 * node, and the edges, each of which records the dependency it was built
 * from.
 */
module DepTypes {
  import opened Wrappers
  import opened Hlir
  import opened Digraphs

  // `Dependency`: the codes, in increasing strength.
  const CONTROL_FLOW: int := 0
  const REVERSE_READ: int := 1
  const SUCCESSOR: int := 2
  const ACTION: int := 3
  const MATCH: int := 4

  /** `Dependency.get`: the name of a code. There is none for CONTROL_FLOW (nor for any other number): the lookup fails. */
  function Get(code: int): (r: Option<string>)
    ensures r.Some? <==> REVERSE_READ <= code <= MATCH
  {
    if code == REVERSE_READ then Some("REVERSE_READ")
    else if code == SUCCESSOR then Some("SUCCESSOR")
    else if code == ACTION then Some("ACTION")
    else if code == MATCH then Some("MATCH")
    else None
  }

  /** `Node.CONDITION` and `Node.TABLE`. */
  datatype NodeType = ConditionNode | TableNode

  /** An edge: its dependency code, and the dependency it stands for (none for a control-flow edge). */
  datatype Edge = Edge(code: int, dep: Option<Dep>)

  /** The code of a dependency kind, when it is one of the four the graph knows. */
  function KindCode(k: DepKind): (r: Option<int>)
    ensures r.Some? ==> REVERSE_READ <= r.value <= MATCH
  {
    match k
    case ReverseReadDep => Some(REVERSE_READ)
    case SuccessorDep => Some(SUCCESSOR)
    case ActionDep => Some(ACTION)
    case MatchDep => Some(MATCH)
    case OtherDep => None
  }

  /**
   * `Edge(dep)`: no dependency gives a control-flow edge; a known kind gives
   * an edge with its code; any other kind fails the source's assertion
   * (`None` here).
   */
  function NewEdge(dep: Option<Dep>): (r: Option<Edge>)
    ensures dep.None? ==> r == Some(Edge(CONTROL_FLOW, None))
    ensures dep.Some? ==> (r.None? <==> dep.value.kind.OtherDep?)
    ensures r.Some? ==> r.value.dep == dep && WellFormedEdge(r.value)
  {
    match dep
    case None => Some(Edge(CONTROL_FLOW, None))
    case Some(d) =>
      match KindCode(d.kind)
      case Some(c) => Some(Edge(c, dep))
      case None => None
  }

  /** An edge is control flow exactly when it carries no dependency, and otherwise carries the code of its dependency's kind. */
  ghost predicate WellFormedEdge(e: Edge)
  {
    if e.dep.None? then e.code == CONTROL_FLOW else KindCode(e.dep.value.kind) == Some(e.code)
  }

  /** Where `Edge(dep)` succeeds, its code lies between CONTROL_FLOW and MATCH and reads back as a dependency name exactly for non-control-flow edges. */
  lemma NewEdgeCodes(dep: Option<Dep>)
    requires NewEdge(dep).Some?
    ensures var e := NewEdge(dep).value;
            && CONTROL_FLOW <= e.code <= MATCH
            && (Get(e.code).Some? <==> dep.Some?)
  {
    if dep.Some? {
      assert KindCode(dep.value.kind).Some?;
    }
  }

  /** The dependencies are all of a kind the graph knows. */
  ghost predicate KnownList(ds: seq<(string, Dep)>)
  {
    forall i :: 0 <= i < |ds| ==> !ds[i].1.kind.OtherDep?
  }

  /** The dependencies a node's `dependencies_for` holds are all of a kind the graph knows. */
  ghost predicate KnownNode(n: CtrlNode)
  {
    KnownList(n.dependenciesFor)
  }

  ghost predicate KnownDeps(g: CtrlGraph)
  {
    forall k :: k in g ==> KnownNode(g[k])
  }

  /** The targets of an edge list, in insertion order. */
  function EdgeTargets(es: seq<(string, Edge)>): (r: seq<string>)
    ensures |r| == |es| && forall i :: 0 <= i < |es| ==> r[i] == es[i].0
  {
    seq(|es|, i requires 0 <= i < |es| => es[i].0)
  }

  lemma EdgeTargetsAppend(a: seq<(string, Edge)>, b: seq<(string, Edge)>)
    ensures EdgeTargets(a + b) == EdgeTargets(a) + EdgeTargets(b)
  {
    assert forall i :: 0 <= i < |a + b| ==> EdgeTargets(a + b)[i] == (EdgeTargets(a) + EdgeTargets(b))[i];
  }

  /** `edges.get(target)`: the edge stored for a target, if any. */
  function EdgeTo(es: seq<(string, Edge)>, target: string): (r: Option<Edge>)
    ensures r.Some? ==> (target, r.value) in es
  {
    if es == [] then None
    else if es[0].0 == target then Some(es[0].1)
    else EdgeTo(es[1..], target)
  }

  /** An edge list without targets listed twice finds nothing only for an absent target. */
  lemma {:induction false} EdgeToFinds(es: seq<(string, Edge)>, target: string)
    ensures EdgeTo(es, target).None? <==> target !in EdgeTargets(es)
  {
    if es != [] {
      EdgeToFinds(es[1..], target);
      assert EdgeTargets(es) == [es[0].0] + EdgeTargets(es[1..]);
    }
  }

  /**
   * Recording an edge to a new target: the new target finds the new edge,
   * and every other target finds what it found before.
   */
  lemma {:induction false} EdgeToAppend(es: seq<(string, Edge)>, target: string, e: Edge, other: string)
    requires target !in EdgeTargets(es)
    ensures EdgeTo(es + [(target, e)], target) == Some(e)
    ensures other != target ==> EdgeTo(es + [(target, e)], other) == EdgeTo(es, other)
  {
    if es == [] {
      assert EdgeTo([(target, e)], other) == if other == target then Some(e) else EdgeTo([], other);
    } else {
      assert (es + [(target, e)])[1..] == es[1..] + [(target, e)];
      assert EdgeTargets(es) == [es[0].0] + EdgeTargets(es[1..]);
      EdgeToAppend(es[1..], target, e, other);
    }
  }

  /** The edge lists of a graph's nodes, by name. */
  type EdgeLists = map<string, seq<(string, Edge)>>

  /** The adjacency of edge lists: each node's targets, in edge order. */
  function AdjOf(em: EdgeLists): (adj: Adj)
    ensures adj.Keys == em.Keys && forall k :: k in em ==> adj[k] == EdgeTargets(em[k])
  {
    map k | k in em :: EdgeTargets(em[k])
  }
}
