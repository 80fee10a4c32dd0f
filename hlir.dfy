/**
 * The part of the P4 high-level intermediate representation (HLIR) that the
 * graph exporters read. The HLIR itself is built elsewhere; here it is a
 * value. Tables, conditionals and parse states are looked up by name, which
 * the HLIR keeps unique, so a node's identity is its name.
 */
module Hlir {
  import opened Wrappers
  import opened Digraphs

  // Dependencies between tables, as computed by the HLIR's dependency
  // analysis: only their kind, their field list (as text) and their value
  // are read here.

  datatype DepKind = ReverseReadDep | SuccessorDep | ActionDep | MatchDep | OtherDep

  /** `dep.value`: a branch outcome (a Python bool) or anything else. */
  datatype DepValue = BoolValue(b: bool) | OpaqueValue

  datatype Dep = Dep(kind: DepKind, fields: seq<string>, value: DepValue)

  // Control flow: tables and conditionals.

  /** A key of a `next_` dict: an action (by name), a plain string such as "hit" or "miss", or a branch of a conditional. */
  datatype NextKey = ActionKey(action: string) | StrKey(s: string) | BoolKey(b: bool)

  /** `p4_table`, or `p4_conditional_node` with the text of its condition. */
  datatype NodeKind = Table | Conditional(condition: string)

  /**
   * A table or conditional. `next` is the `next_` dict in iteration order (a
   * `None` successor ends the pipeline); `successors` is the iteration order
   * of `set(next_.values())`; `dependenciesFor` is the `dependencies_for` dict.
   */
  datatype CtrlNode = CtrlNode(
    kind: NodeKind,
    next: seq<(NextKey, Option<string>)>,
    successors: seq<Option<string>>,
    dependenciesFor: seq<(string, Dep)>)

  type CtrlGraph = map<string, CtrlNode>

  function NextValues(next: seq<(NextKey, Option<string>)>): set<Option<string>>
  {
    set e | e in next :: e.1
  }

  /** What a well-built node looks like: dict keys are distinct, `successors` lists each value of `next_` once, and only conditionals branch on booleans. */
  ghost predicate ConsistentNode(n: CtrlNode)
  {
    && (forall i, j :: 0 <= i < j < |n.next| ==> n.next[i].0 != n.next[j].0)
    && NoDup(n.successors)
    && Elems(n.successors) == NextValues(n.next)
    && (n.kind.Table? ==> forall i :: 0 <= i < |n.next| ==> !n.next[i].0.BoolKey?)
    && (forall i, j :: 0 <= i < j < |n.dependenciesFor| ==> n.dependenciesFor[i].0 != n.dependenciesFor[j].0)
  }

  /** Every node is consistent and every node it names is in the graph. */
  ghost predicate WellFormedCtrl(g: CtrlGraph)
  {
    forall k {:trigger g[k]} :: k in g ==>
      && ConsistentNode(g[k])
      && (forall s {:trigger s in g[k].successors} :: s in g[k].successors && s.Some? ==> s.value in g)
      && (forall d {:trigger d in g[k].dependenciesFor} :: d in g[k].dependenciesFor ==> d.0 in g)
  }

  /** The successors that are nodes (`None` dropped), in order. */
  function Targets(succs: seq<Option<string>>): (r: seq<string>)
    ensures forall t :: t in r <==> Some(t) in succs
  {
    if succs == [] then []
    else (if succs[0].Some? then [succs[0].value] else []) + Targets(succs[1..])
  }

  /** The control-flow graph: each node to the nodes its `next_` leads to. */
  function NextAdj(g: CtrlGraph): Adj
  {
    map k | k in g :: Targets(g[k].successors)
  }

  /** The nodes reachable from `root` along `next_` edges. */
  ghost function ReachableFrom(g: CtrlGraph, root: string): set<string>
  {
    set n | n in g && Reachable(NextAdj(g), root, n)
  }

  lemma NextAdjClosed(g: CtrlGraph)
    requires WellFormedCtrl(g)
    ensures AdjClosed(NextAdj(g))
  {
  }

  // The parser.

  /** A value a case of a parse state matches: an integer constant, `P4_DEFAULT`, a value set, or anything else (which the parser graph does not print). */
  datatype CaseValue = IntValue(n: nat) | DefaultValue | ValueSet(setName: string) | OtherValue

  /** A key of `branch_to`: one value, or a list of alternatives. */
  datatype CaseKey = SingleCase(v: CaseValue) | CaseList(vs: seq<CaseValue>)

  /**
   * Where a case of `branch_to` leads: another parse state, a table, or a
   * conditional node (an ingress entry point that is not a table).
   */
  datatype ParseTarget = StateTarget(name: string) | TableTarget(name: string) | ConditionalTarget(name: string)

  /** A field a parse state branches on, by its text (`str(elem)`); a tuple stands for a `current(...)` lookahead. */
  datatype BranchField = PlainField(text: string) | TupleField(text: string)

  /** A parse state: `branch_on`, and `branch_to` in iteration order. */
  datatype ParseState = ParseState(branchOn: seq<BranchField>, branchTo: seq<(CaseKey, ParseTarget)>)

  type ParseGraph = map<string, ParseState>

  ghost predicate WellFormedParser(g: ParseGraph)
  {
    forall k, e :: k in g && e in g[k].branchTo && e.1.StateTarget? ==> e.1.name in g
  }

  /** The parse states a branch list leads to, in order. */
  function StateTargets(branchTo: seq<(CaseKey, ParseTarget)>): (r: seq<string>)
    ensures forall t :: t in r <==> exists e :: e in branchTo && e.1 == StateTarget(t)
  {
    if branchTo == [] then []
    else
      assert forall e :: e in branchTo <==> e == branchTo[0] || e in branchTo[1..];
      (if branchTo[0].1.StateTarget? then [branchTo[0].1.name] else []) + StateTargets(branchTo[1..])
  }

  /** The parse graph: each state to the states it may branch to. */
  function ParseAdj(g: ParseGraph): Adj
  {
    map k | k in g :: StateTargets(g[k].branchTo)
  }

  // The program.

  /**
   * What the graph exporters read of a program: `p4_ingress_ptr` (each
   * ingress entry point, by name, with the parse states that invoke it, in
   * dict order), `p4_egress_ptr`, and the control and parse graphs.
   */
  datatype Program = Program(
    ingress: seq<(string, seq<string>)>,
    egress: Option<string>,
    ctrl: CtrlGraph,
    parseStates: ParseGraph)

  /** The HLIR's own guarantee: both graphs are well formed and the pipeline pointers name control nodes. */
  ghost predicate WellFormedProgram(prog: Program)
  {
    && WellFormedCtrl(prog.ctrl)
    && WellFormedParser(prog.parseStates)
    && (forall i :: 0 <= i < |prog.ingress| ==> prog.ingress[i].0 in prog.ctrl)
    && (prog.egress.Some? ==> prog.egress.value in prog.ctrl)
  }
}
