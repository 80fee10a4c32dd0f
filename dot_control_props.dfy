/**
 * What `dump_table` guarantees about the text it writes: every node it
 * reaches is written exactly once, as its declaration, its edges and its
 * exit edge; the nodes written are exactly those reachable from the entry
 * point; and the edges of a node follow its `next_` dict.
 */
module DotControlProps {
  import opened Wrappers
  import opened Text
  import opened Digraphs
  import opened Hlir
  import opened DotControl

  /** The statements about node `n`, in the order they were written. */
  function Project(ss: seq<CtrlStmt>, n: string): seq<CtrlStmt>
  {
    if ss == [] then []
    else (if Subject(ss[0]) == n then [ss[0]] else []) + Project(ss[1..], n)
  }

  lemma {:induction false} ProjectAppend(a: seq<CtrlStmt>, b: seq<CtrlStmt>, n: string)
    ensures Project(a + b, n) == Project(a, n) + Project(b, n)
  {
    if a == [] {
      assert a + b == b;
    } else {
      var h := if Subject(a[0]) == n then [a[0]] else [];
      assert (a + b)[0] == a[0];
      assert (a + b)[1..] == a[1..] + b;
      ProjectAppend(a[1..], b, n);
      assert Project(a + b, n) == h + (Project(a[1..], n) + Project(b, n));
      SeqRegroup(h, Project(a[1..], n), Project(b, n));
    }
  }

  lemma {:induction false} ProjectUniform(ss: seq<CtrlStmt>, name: string, n: string)
    requires forall i :: 0 <= i < |ss| ==> Subject(ss[i]) == name
    ensures Project(ss, n) == if n == name then ss else []
  {
    if ss != [] {
      ProjectUniform(ss[1..], name, n);
    }
  }

  // ---------------------------------------------------------------------
  // Each node written once, in one piece of statements.

  /** What a dump that starts from `visited` and ends with `after` writes about node `n`. */
  ghost function Expected(g: CtrlGraph, exitNode: string, visited: set<string>, after: set<string>, n: string): seq<CtrlStmt>
    requires WellFormedCtrl(g) && after <= visited + g.Keys
  {
    if n in after - visited then Own(n, g[n], exitNode) else []
  }

  /**
   * The statements a dump writes about a node are exactly that node's own
   * declaration, edges and exit edge when the dump visited it, and nothing
   * otherwise.
   */
  lemma {:induction false} TableSpecProjection(g: CtrlGraph, name: string, exitNode: string, visited: set<string>, n: string)
    requires WellFormedCtrl(g) && name in g && name !in visited
    ensures var r := DumpTableSpec(g, name, exitNode, visited);
            Project(r.0, n) == Expected(g, exitNode, visited, r.1, n)
    decreases |g.Keys - (visited + {name})|, 2, 0
  {
    var node := g[name];
    var w := visited + {name};
    var head := [Decl(name, node.kind)] + Transitions(name, node, exitNode);
    var sub := DumpSuccsSpec(g, exitNode, node.successors, 0, w);
    var tail := ExitLine(name, node, exitNode);
    var r := DumpTableSpec(g, name, exitNode, visited);
    assert r.0 == head + sub.0 + tail && r.1 == sub.1;
    SuccsSpecProjection(g, exitNode, node.successors, 0, w, n);
    SuccsSpecProjection(g, exitNode, node.successors, 0, w, name);
    OwnSubjects(name, node, exitNode);
    ProjectThree(head, sub.0, tail, name, n);
    if n == name {
      assert Own(name, node, exitNode) == head + tail;
    } else {
      assert n in r.1 - visited <==> n in sub.1 - w;
    }
  }

  lemma OwnSubjects(name: string, node: CtrlNode, exitNode: string)
    requires ConsistentNode(node)
    ensures var head := [Decl(name, node.kind)] + Transitions(name, node, exitNode);
            forall i :: 0 <= i < |head| ==> Subject(head[i]) == name
    ensures forall i :: 0 <= i < |ExitLine(name, node, exitNode)| ==> Subject(ExitLine(name, node, exitNode)[i]) == name
  {
  }

  /** Own statements around a stretch that says nothing about their node. */
  lemma ProjectThree(head: seq<CtrlStmt>, mid: seq<CtrlStmt>, tail: seq<CtrlStmt>, name: string, n: string)
    requires forall i :: 0 <= i < |head| ==> Subject(head[i]) == name
    requires forall i :: 0 <= i < |tail| ==> Subject(tail[i]) == name
    requires Project(mid, name) == []
    ensures Project(head + mid + tail, n) == if n == name then head + tail else Project(mid, n)
  {
    ProjectAppend(head + mid, tail, n);
    ProjectAppend(head, mid, n);
    ProjectUniform(head, name, n);
    ProjectUniform(tail, name, n);
    if n == name {
      DropEmpty(head, Project(mid, n), tail);
    } else {
      ConcatEmpty(Project(head, n), Project(mid, n), Project(tail, n));
    }
  }

  lemma {:induction false} SuccsSpecProjection(g: CtrlGraph, exitNode: string, succs: seq<Option<string>>, i: nat, visited: set<string>, n: string)
    requires WellFormedCtrl(g)
    requires forall s :: s in succs && s.Some? ==> s.value in g
    requires i <= |succs|
    ensures var r := DumpSuccsSpec(g, exitNode, succs, i, visited);
            Project(r.0, n) == Expected(g, exitNode, visited, r.1, n)
    decreases |g.Keys - visited|, 1, |succs| - i
  {
    if i < |succs| {
      var first := SuccDump(g, exitNode, succs[i], visited);
      VisitMonotone(g.Keys, visited, first.1);
      var rest := DumpSuccsSpec(g, exitNode, succs, i + 1, first.1);
      DumpSuccsUnfold(g, exitNode, succs, i, visited);
      SuccDumpProjection(g, exitNode, succs[i], visited, n);
      SuccsSpecProjection(g, exitNode, succs, i + 1, first.1, n);
      ProjectAppend(first.0, rest.0, n);
      var e1 := Expected(g, exitNode, visited, first.1, n);
      var e2 := Expected(g, exitNode, first.1, rest.1, n);
      if n in first.1 - visited {
        assert e2 == [];
        ConcatEmpty([], e1, e2);
      } else {
        assert e1 == [];
        ConcatEmpty(e1, e2, []);
      }
    }
  }

  lemma {:induction false} SuccDumpProjection(g: CtrlGraph, exitNode: string, target: Option<string>, visited: set<string>, n: string)
    requires WellFormedCtrl(g)
    requires target.Some? ==> target.value in g
    ensures var r := SuccDump(g, exitNode, target, visited);
            Project(r.0, n) == Expected(g, exitNode, visited, r.1, n)
    decreases |g.Keys - visited|, 0, 0
  {
    if target.Some? && target.value !in visited {
      VisitShrinks(g.Keys, visited, visited, target.value);
      TableSpecProjection(g, target.value, exitNode, visited, n);
    }
  }

  // ---------------------------------------------------------------------
  // The nodes written are the nodes reachable from the entry point.

  /** Every node a dump newly visits is reachable from `a` when `name` is. */
  lemma {:induction false} TableSpecReach(g: CtrlGraph, a: string, name: string, exitNode: string, visited: set<string>, n: string)
    requires WellFormedCtrl(g) && name in g
    requires Reachable(NextAdj(g), a, name)
    requires n in DumpTableSpec(g, name, exitNode, visited).1 - visited
    ensures Reachable(NextAdj(g), a, n)
    decreases |g.Keys - (visited + {name})|, 2, 0
  {
    if n != name {
      assert DumpTableSpec(g, name, exitNode, visited).1 == DumpSuccsSpec(g, exitNode, g[name].successors, 0, visited + {name}).1;
      SuccessorsReachable(g, a, name);
      SuccsSpecReach(g, a, exitNode, g[name].successors, 0, visited + {name}, n);
    }
  }

  lemma SuccessorsReachable(g: CtrlGraph, a: string, name: string)
    requires WellFormedCtrl(g) && name in g
    requires Reachable(NextAdj(g), a, name)
    ensures forall j :: 0 <= j < |g[name].successors| && g[name].successors[j].Some? ==>
              Reachable(NextAdj(g), a, g[name].successors[j].value)
  {
    var succs := g[name].successors;
    forall j | 0 <= j < |succs| && succs[j].Some?
      ensures Reachable(NextAdj(g), a, succs[j].value)
    {
      assert succs[j] in succs;
      assert succs[j].value in NextAdj(g)[name];
      ReachableStep(NextAdj(g), a, name, succs[j].value);
    }
  }

  lemma {:induction false} SuccsSpecReach(g: CtrlGraph, a: string, exitNode: string, succs: seq<Option<string>>, i: nat, visited: set<string>, n: string)
    requires WellFormedCtrl(g)
    requires forall s :: s in succs && s.Some? ==> s.value in g
    requires i <= |succs|
    requires forall j :: i <= j < |succs| && succs[j].Some? ==> Reachable(NextAdj(g), a, succs[j].value)
    requires n in DumpSuccsSpec(g, exitNode, succs, i, visited).1 - visited
    ensures Reachable(NextAdj(g), a, n)
    decreases |g.Keys - visited|, 1, |succs| - i
  {
    var first := SuccDump(g, exitNode, succs[i], visited);
    VisitMonotone(g.Keys, visited, first.1);
    DumpSuccsUnfold(g, exitNode, succs, i, visited);
    if n in first.1 - visited {
      VisitShrinks(g.Keys, visited, visited, succs[i].value);
      TableSpecReach(g, a, succs[i].value, exitNode, visited, n);
    } else {
      SuccsSpecReach(g, a, exitNode, succs, i + 1, first.1, n);
    }
  }

  /** A dump leaves no successor of a node it visited unvisited. */
  lemma {:induction false} TableSpecClosed(g: CtrlGraph, name: string, exitNode: string, visited: set<string>, n: string, t: string)
    requires WellFormedCtrl(g) && name in g
    requires n in DumpTableSpec(g, name, exitNode, visited).1 - visited && Some(t) in g[n].successors
    ensures t in DumpTableSpec(g, name, exitNode, visited).1
    decreases |g.Keys - (visited + {name})|, 2, 0
  {
    var node := g[name];
    if n == name {
      var j :| 0 <= j < |node.successors| && node.successors[j] == Some(t);
      SuccsSpecCovers(g, exitNode, node.successors, 0, visited + {name}, j);
    } else {
      SuccsSpecClosed(g, exitNode, node.successors, 0, visited + {name}, n, t);
    }
  }

  lemma {:induction false} SuccsSpecClosed(g: CtrlGraph, exitNode: string, succs: seq<Option<string>>, i: nat, visited: set<string>, n: string, t: string)
    requires WellFormedCtrl(g)
    requires forall s :: s in succs && s.Some? ==> s.value in g
    requires i <= |succs|
    requires n in DumpSuccsSpec(g, exitNode, succs, i, visited).1 - visited && Some(t) in g[n].successors
    ensures t in DumpSuccsSpec(g, exitNode, succs, i, visited).1
    decreases |g.Keys - visited|, 1, |succs| - i
  {
    var first := SuccDump(g, exitNode, succs[i], visited);
    VisitMonotone(g.Keys, visited, first.1);
    DumpSuccsUnfold(g, exitNode, succs, i, visited);
    if n in first.1 - visited {
      VisitShrinks(g.Keys, visited, visited, succs[i].value);
      TableSpecClosed(g, succs[i].value, exitNode, visited, n, t);
    } else {
      SuccsSpecClosed(g, exitNode, succs, i + 1, first.1, n, t);
    }
  }

  /** Every successor the loop passes over is visited when it ends. */
  lemma {:induction false} SuccsSpecCovers(g: CtrlGraph, exitNode: string, succs: seq<Option<string>>, i: nat, visited: set<string>, j: nat)
    requires WellFormedCtrl(g)
    requires forall s :: s in succs && s.Some? ==> s.value in g
    requires i <= j < |succs| && succs[j].Some?
    ensures succs[j].value in DumpSuccsSpec(g, exitNode, succs, i, visited).1
    decreases |succs| - i
  {
    var first := SuccDump(g, exitNode, succs[i], visited);
    DumpSuccsUnfold(g, exitNode, succs, i, visited);
    if i < j {
      SuccsSpecCovers(g, exitNode, succs, i + 1, first.1, j);
    } else {
      assert succs[i].value in first.1;
    }
  }

  /**
   * A dump started from `root` with nothing visited (`visited=None` in the
   * source) visits exactly the nodes reachable from `root`.
   */
  lemma DumpVisitsReachable(g: CtrlGraph, root: string, exitNode: string)
    requires WellFormedCtrl(g) && root in g
    ensures DumpTableSpec(g, root, exitNode, {}).1 == ReachableFrom(g, root)
  {
    var adj := NextAdj(g);
    var r := DumpTableSpec(g, root, exitNode, {});
    ReachableRefl(adj, root);
    forall n | n in r.1
      ensures n in ReachableFrom(g, root)
    {
      TableSpecReach(g, root, root, exitNode, {}, n);
    }
    assert Closed(adj, r.1) by {
      forall u, v | u in r.1 && u in adj && v in adj[u]
        ensures v in r.1
      {
        assert Some(v) in g[u].successors;
        TableSpecClosed(g, root, exitNode, {}, u, v);
      }
    }
    forall n | n in ReachableFrom(g, root)
      ensures n in r.1
    {
      ClosedHoldsReachable(adj, r.1, root, n);
    }
  }

  /**
   * The whole dump from `root`: every reachable node is written once, as
   * its own declaration, edges and exit edge, and no other node is.
   */
  lemma DumpWritesReachableOnce(g: CtrlGraph, root: string, exitNode: string)
    requires WellFormedCtrl(g) && root in g
    ensures var out := DumpTableSpec(g, root, exitNode, {}).0;
            forall n :: Project(out, n) == if n in ReachableFrom(g, root) then Own(n, g[n], exitNode) else []
  {
    DumpVisitsReachable(g, root, exitNode);
    forall n
      ensures Project(DumpTableSpec(g, root, exitNode, {}).0, n) == if n in ReachableFrom(g, root) then Own(n, g[n], exitNode) else []
    {
      TableSpecProjection(g, root, exitNode, {}, n);
    }
  }

  // ---------------------------------------------------------------------
  // The edges of one node.

  /** The collapsed edge goes to the one distinct successor, although the source picks it as the first value of `next_`. */
  lemma CollapsedEdgeTarget(name: string, node: CtrlNode, exitNode: string)
    requires ConsistentNode(node) && Collapses(node)
    ensures Transitions(name, node, exitNode) == [Transition(name, CallName(node.successors[0], exitNode), "normal", "ALL")]
  {
    assert node.successors[0] in NextValues(node.next);
    assert node.next[0].1 in NextValues(node.next);
  }

  /** The edges of a node lead exactly to its successors, `None` standing for the exit. */
  lemma TransitionTargets(name: string, node: CtrlNode, exitNode: string)
    requires ConsistentNode(node)
    ensures var ts := Transitions(name, node, exitNode);
            && (forall t :: t in ts ==> t.Transition? && t.from == name && exists s :: s in node.successors && t.to == CallName(s, exitNode))
            && (forall s :: s in node.successors ==> exists t :: t in ts && t.to == CallName(s, exitNode))
  {
    var ts := Transitions(name, node, exitNode);
    if Collapses(node) {
      CollapsedEdgeTarget(name, node, exitNode);
      forall s | s in node.successors
        ensures exists t :: t in ts && t.to == CallName(s, exitNode)
      {
        assert s == node.successors[0];
        assert ts[0] in ts;
      }
    } else {
      forall t | t in ts
        ensures t.Transition? && t.from == name && exists s :: s in node.successors && t.to == CallName(s, exitNode)
      {
        var i :| 0 <= i < |ts| && ts[i] == t;
        assert node.next[i] in node.next;
        assert node.next[i].1 in NextValues(node.next);
        assert node.next[i].1 in Elems(node.successors);
      }
      forall s | s in node.successors
        ensures exists t :: t in ts && t.to == CallName(s, exitNode)
      {
        assert s in Elems(node.successors);
        var e :| e in node.next && e.1 == s;
        var i :| 0 <= i < |node.next| && node.next[i] == e;
        assert ts[i] in ts;
      }
    }
  }

  /** A conditional gets one edge per branch, with a filled (true) or hollow (false) dot and no label. */
  lemma ConditionalEdges(name: string, node: CtrlNode, exitNode: string)
    requires ConsistentNode(node) && node.kind.Conditional?
    ensures var ts := Transitions(name, node, exitNode);
            && |ts| == |node.next|
            && forall i :: 0 <= i < |ts| ==>
                 ts[i] == Transition(name, CallName(node.next[i].1, exitNode), if Truthy(node.next[i].0) then "dot" else "odot", "")
  {
  }

  /** A table with a "hit" or "miss" branch gets one edge per entry, labelled with its key, even with one distinct successor. */
  lemma HitMissEdges(name: string, node: CtrlNode, exitNode: string)
    requires ConsistentNode(node) && node.kind.Table? && HitMiss(node.next)
    ensures var ts := Transitions(name, node, exitNode);
            && |ts| == |node.next|
            && forall i :: 0 <= i < |ts| ==>
                 ts[i] == Transition(name, CallName(node.next[i].1, exitNode), "normal", ActionName(node.next[i].0))
  {
  }
}
