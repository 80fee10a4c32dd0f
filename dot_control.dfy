/**
 * The control graph writer: `get_call_name` and `dump_table`, which walk the
 * tables and conditionals of a pipeline from an entry point and write one
 * DOT statement per line. The walk keeps a set of visited nodes that is
 * shared by all recursive calls, so every node is written once and cycles
 * end the recursion.
 */
module DotControl {
  import opened Wrappers
  import opened Text
  import opened Digraphs
  import opened Hlir

  /** `get_call_name`: the node's name, or the exit label for a `None` successor. */
  function CallName(target: Option<string>, exitNode: string): (r: string)
    ensures target.Some? ==> r == target.value
    ensures target.None? ==> r == exitNode
  {
    match target
    case Some(n) => n
    case None => exitNode
  }

  /** The statements `dump_table` writes. */
  datatype CtrlStmt =
    | TableDecl(name: string)
    | CondDecl(name: string, condition: string)
    | Transition(from: string, to: string, arrowhead: string, edgeLabel: string)
    | ExitEdge(from: string, exitNode: string)

  /** The node a statement is about: the declared node, or an edge's source. */
  function Subject(s: CtrlStmt): string
  {
    match s
    case TableDecl(n) => n
    case CondDecl(n, _) => n
    case Transition(a, _, _, _) => a
    case ExitEdge(a, _) => a
  }

  function Render(s: CtrlStmt): string
  {
    match s
    case TableDecl(n) => "   " + n + " [shape=ellipse];\n"
    case CondDecl(n, c) => "   " + n + " [shape=box label=\"" + c + "\"];\n"
    case Transition(a, b, h, l) => "   " + a + " -> " + b + " [arrowhead=" + h + " label=\"" + l + "\"];\n"
    case ExitEdge(a, e) => "   " + a + " -> " + e + ";\n"
  }

  function RenderAll(ss: seq<CtrlStmt>): string
  {
    if ss == [] then "" else Render(ss[0]) + RenderAll(ss[1..])
  }

  lemma {:induction false} RenderAllAppend(a: seq<CtrlStmt>, b: seq<CtrlStmt>)
    ensures RenderAll(a + b) == RenderAll(a) + RenderAll(b)
  {
    if a == [] {
      assert a + b == b;
    } else {
      assert (a + b)[0] == a[0];
      assert (a + b)[1..] == a[1..] + b;
      RenderAllAppend(a[1..], b);
      assert RenderAll(a + b) == Render(a[0]) + (RenderAll(a[1..]) + RenderAll(b));
      SeqRegroup(Render(a[0]), RenderAll(a[1..]), RenderAll(b));
    }
  }

  function Decl(name: string, kind: NodeKind): CtrlStmt
  {
    match kind
    case Table => TableDecl(name)
    case Conditional(c) => CondDecl(name, c)
  }

  /** Python truthiness of a `next_` key, which picks a conditional's arrowhead. */
  predicate Truthy(k: NextKey)
  {
    match k
    case BoolKey(b) => b
    case StrKey(s) => s != ""
    case ActionKey(_) => true
  }

  /** `get_action_name`: a string key is its own label, an action is labelled by its name. */
  function ActionName(k: NextKey): string
    requires !k.BoolKey?
  {
    match k
    case StrKey(s) => s
    case ActionKey(a) => a
  }

  /** Whether "hit" or "miss" is among the keys of `next_`. */
  predicate HitMiss(next: seq<(NextKey, Option<string>)>)
  {
    exists i :: 0 <= i < |next| && (next[i].0 == StrKey("hit") || next[i].0 == StrKey("miss"))
  }

  /** A table with one distinct successor and no hit/miss key gets a single "ALL" edge. */
  predicate Collapses(node: CtrlNode)
  {
    node.kind.Table? && |node.successors| == 1 && !HitMiss(node.next)
  }

  /** The edge for one `next_` entry: action-labelled for a table, dot/odot for a conditional. */
  function EntryTransition(name: string, kind: NodeKind, entry: (NextKey, Option<string>), exitNode: string): CtrlStmt
    requires kind.Table? ==> !entry.0.BoolKey?
  {
    if kind.Table? then Transition(name, CallName(entry.1, exitNode), "normal", ActionName(entry.0))
    else Transition(name, CallName(entry.1, exitNode), if Truthy(entry.0) then "dot" else "odot", "")
  }

  /** Whether every key of a table's `next_` is an action or a string. */
  predicate ActionKeys(kind: NodeKind, next: seq<(NextKey, Option<string>)>)
  {
    kind.Table? ==> forall i :: 0 <= i < |next| ==> !next[i].0.BoolKey?
  }

  /** One edge per `next_` entry, in the order of `next_.items()`. */
  function EntryTransitions(name: string, kind: NodeKind, next: seq<(NextKey, Option<string>)>, exitNode: string): (r: seq<CtrlStmt>)
    requires ActionKeys(kind, next)
    ensures |r| == |next|
  {
    seq(|next|, i requires 0 <= i < |next| => EntryTransition(name, kind, next[i], exitNode))
  }

  /** The edges `dump_table` writes for one node. */
  function Transitions(name: string, node: CtrlNode, exitNode: string): (r: seq<CtrlStmt>)
    requires ConsistentNode(node)
    ensures |r| == if Collapses(node) then 1 else |node.next|
  {
    if Collapses(node) then
      assert node.successors[0] in NextValues(node.next);
      [Transition(name, CallName(node.next[0].1, exitNode), "normal", "ALL")]
    else
      EntryTransitions(name, node.kind, node.next, exitNode)
  }

  /** The exit edge of a node without successors. */
  function ExitLine(name: string, node: CtrlNode, exitNode: string): seq<CtrlStmt>
  {
    if |node.next| == 0 then [ExitEdge(name, exitNode)] else []
  }

  /** Everything `dump_table` writes about one node, in order. */
  function Own(name: string, node: CtrlNode, exitNode: string): seq<CtrlStmt>
    requires ConsistentNode(node)
  {
    [Decl(name, node.kind)] + Transitions(name, node, exitNode) + ExitLine(name, node, exitNode)
  }

  // ---------------------------------------------------------------------
  // What one call of dump_table writes, and the visited set it leaves.

  function DumpTableSpec(g: CtrlGraph, name: string, exitNode: string, visited: set<string>): (r: (seq<CtrlStmt>, set<string>))
    requires WellFormedCtrl(g) && name in g
    ensures visited + {name} <= r.1 <= visited + g.Keys
    decreases |g.Keys - (visited + {name})|, 2, 0
  {
    var node := g[name];
    var sub := DumpSuccsSpec(g, exitNode, node.successors, 0, visited + {name});
    ([Decl(name, node.kind)] + Transitions(name, node, exitNode) + sub.0 + ExitLine(name, node, exitNode), sub.1)
  }

  /** The recursion over `set(next_.values())` from position `i` on, with the visited set threaded through. */
  function DumpSuccsSpec(g: CtrlGraph, exitNode: string, succs: seq<Option<string>>, i: nat, visited: set<string>): (r: (seq<CtrlStmt>, set<string>))
    requires WellFormedCtrl(g)
    requires forall s :: s in succs && s.Some? ==> s.value in g
    requires i <= |succs|
    ensures visited <= r.1 <= visited + g.Keys
    decreases |g.Keys - visited|, 1, |succs| - i
  {
    if i == |succs| then ([], visited)
    else
      var first := SuccDump(g, exitNode, succs[i], visited);
      VisitMonotone(g.Keys, visited, first.1);
      var rest := DumpSuccsSpec(g, exitNode, succs, i + 1, first.1);
      (first.0 + rest.0, rest.1)
  }

  /** One successor: dumped when it is a node not yet visited, skipped otherwise. */
  function SuccDump(g: CtrlGraph, exitNode: string, target: Option<string>, visited: set<string>): (r: (seq<CtrlStmt>, set<string>))
    requires WellFormedCtrl(g)
    requires target.Some? ==> target.value in g
    ensures visited <= r.1 <= visited + g.Keys
    decreases |g.Keys - visited|, 0, 0
  {
    if target.Some? && target.value !in visited then
      VisitShrinks(g.Keys, visited, visited, target.value);
      DumpTableSpec(g, target.value, exitNode, visited)
    else ([], visited)
  }

  lemma DumpSuccsUnfold(g: CtrlGraph, exitNode: string, succs: seq<Option<string>>, i: nat, visited: set<string>)
    requires WellFormedCtrl(g)
    requires forall s :: s in succs && s.Some? ==> s.value in g
    requires i < |succs|
    ensures var first := SuccDump(g, exitNode, succs[i], visited);
            var rest := DumpSuccsSpec(g, exitNode, succs, i + 1, first.1);
            DumpSuccsSpec(g, exitNode, succs, i, visited) == (first.0 + rest.0, rest.1)
  {
  }

  // ---------------------------------------------------------------------
  // dump_table as written: loops that append statements one at a time. The
  // text of the dump is RenderAll of the statements the methods return.

  /** The loop over `next_.items()` in `dump_table`, writing one edge per entry. */
  method DumpEntryEdges(name: string, kind: NodeKind, next: seq<(NextKey, Option<string>)>, exitNode: string) returns (p: seq<CtrlStmt>)
    requires ActionKeys(kind, next)
    ensures p == EntryTransitions(name, kind, next, exitNode)
  {
    p := [];
    for i := 0 to |next|
      invariant p == EntryTransitions(name, kind, next[..i], exitNode)
    {
      var (key, target) := next[i];
      var line;
      if kind.Table? {
        line := Transition(name, CallName(target, exitNode), "normal", ActionName(key));
      } else {
        var arrowhead := if Truthy(key) then "dot" else "odot";
        line := Transition(name, CallName(target, exitNode), arrowhead, "");
      }
      p := p + [line];
    }
  }

  /** The edges of `dump_table`: the collapsed "ALL" edge, or one edge per `next_` entry. */
  method DumpEdges(name: string, node: CtrlNode, exitNode: string) returns (p: seq<CtrlStmt>)
    requires ConsistentNode(node)
    ensures p == Transitions(name, node, exitNode)
  {
    if node.kind.Table? && |node.successors| == 1 && !HitMiss(node.next) {
      assert node.successors[0] in NextValues(node.next);
      p := [Transition(name, CallName(node.next[0].1, exitNode), "normal", "ALL")];
    } else {
      p := DumpEntryEdges(name, node.kind, node.next, exitNode);
    }
  }

  /** `dump_table`: writes `name` and its edges, dumps every successor not yet visited, then the exit edge of a node without successors. */
  method DumpTable(g: CtrlGraph, name: string, exitNode: string, visited: set<string>) returns (p: seq<CtrlStmt>, visitedOut: set<string>)
    requires WellFormedCtrl(g) && name in g
    ensures (p, visitedOut) == DumpTableSpec(g, name, exitNode, visited)
    decreases |g.Keys - (visited + {name})|, 2
  {
    var node := g[name];
    p := [Decl(name, node.kind)];
    var edges := DumpEdges(name, node, exitNode);
    p := p + edges;
    var sub;
    sub, visitedOut := DumpSuccessors(g, exitNode, node.successors, visited + {name});
    p := p + sub;
    assert p + [] == p;
    if |node.next| == 0 {
      p := p + [ExitEdge(name, exitNode)];
    }
  }

  /** The loop over `set(next_.values())` in `dump_table`: each successor that is a node not yet visited is dumped, sharing the visited set. */
  method DumpSuccessors(g: CtrlGraph, exitNode: string, succs: seq<Option<string>>, visited: set<string>) returns (p: seq<CtrlStmt>, visitedOut: set<string>)
    requires WellFormedCtrl(g)
    requires forall s :: s in succs && s.Some? ==> s.value in g
    ensures (p, visitedOut) == DumpSuccsSpec(g, exitNode, succs, 0, visited)
    decreases |g.Keys - visited|, 1
  {
    p := [];
    visitedOut := visited;
    ghost var whole := DumpSuccsSpec(g, exitNode, succs, 0, visited);
    for i := 0 to |succs|
      invariant visited <= visitedOut
      invariant p + DumpSuccsSpec(g, exitNode, succs, i, visitedOut).0 == whole.0
      invariant DumpSuccsSpec(g, exitNode, succs, i, visitedOut).1 == whole.1
    {
      ghost var first := SuccDump(g, exitNode, succs[i], visitedOut);
      ghost var rest := DumpSuccsSpec(g, exitNode, succs, i + 1, first.1);
      DumpSuccsUnfold(g, exitNode, succs, i, visitedOut);
      SeqRegroup(p, first.0, rest.0);
      if succs[i].Some? && succs[i].value !in visitedOut {
        VisitShrinks(g.Keys, visited, visitedOut, succs[i].value);
        var q;
        q, visitedOut := DumpTable(g, succs[i].value, exitNode, visitedOut);
        p := p + q;
      }
      assert DumpSuccsSpec(g, exitNode, succs, i + 1, visitedOut) == rest;
    }
    assert p + [] == p;
  }
}
