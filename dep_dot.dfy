/**
 * `generate_dot` of the table-dependency graph: a `digraph` named after the
 * graph, a box for every condition node, then one line per edge, coloured
 * by its dependency code. Control-flow edges can be hidden, edges can be
 * labelled with the fields their dependency is about, and a successor
 * dependency on a branch outcome gets an arrowhead that tells the branch.
 *
 * The writer works on a snapshot of the graph: the names in insertion
 * order, each node's kind and HLIR node, and each node's edge list.
 */
module DepDot {
  import opened Wrappers
  import opened Text
  import opened Digraphs
  import opened Hlir
  import opened DepTypes

  /** Each node's kind and the HLIR node it stands for, by name. */
  type NodeInfos = map<string, (NodeType, CtrlNode)>

  /** Every condition node stands for an HLIR conditional, whose condition text the box shows. */
  ghost predicate ConditionsKnown(info: NodeInfos)
  {
    forall k :: k in info && info[k].0 == ConditionNode ==> info[k].1.kind.Conditional?
  }

  /** Every edge is as `Edge(dep)` builds it. */
  ghost predicate EdgesWellFormed(em: EdgeLists)
  {
    forall k, i :: k in em && 0 <= i < |em[k]| ==> WellFormedEdge(em[k][i].1)
  }

  /** `styles`: the attribute each dependency code is drawn with. */
  function Style(code: int): string
    requires CONTROL_FLOW <= code <= MATCH
  {
    if code == CONTROL_FLOW then "style=dotted"
    else if code == REVERSE_READ then "color=yellow"
    else if code == SUCCESSOR then "color=green"
    else if code == ACTION then "color=blue"
    else "color=red"
  }

  /** Different codes are drawn differently, so a drawn edge tells its code. */
  lemma StyleInjective(a: int, b: int)
    requires CONTROL_FLOW <= a <= MATCH && CONTROL_FLOW <= b <= MATCH
    ensures Style(a) == Style(b) <==> a == b
  {
  }

  /** The statements `generate_dot` writes between the braces. */
  datatype DotStmt =
    | BoxDecl(name: string, attrs: string)
    | DepEdge(from: string, to: string, style: string, attrs: string)

  function Render(s: DotStmt): string
  {
    match s
    case BoxDecl(n, l) => n + " [shape=box " + l + "];\n"
    case DepEdge(a, b, st, l) => a + " -> " + b + " [" + st + " " + l + "]" + ";\n"
  }

  /** The statements, one after the other. */
  function RenderAll(ss: seq<DotStmt>): string
  {
    if ss == [] then "" else RenderAll(ss[..|ss| - 1]) + Render(ss[|ss| - 1])
  }

  lemma {:induction false} RenderAllAppend(a: seq<DotStmt>, b: seq<DotStmt>)
    ensures RenderAll(a + b) == RenderAll(a) + RenderAll(b)
  {
    if b == [] {
      assert a + b == a;
    } else {
      var b' := b[..|b| - 1];
      assert (a + b)[..|a + b| - 1] == a + b';
      assert (a + b)[|a + b| - 1] == b[|b| - 1];
      RenderAllAppend(a, b');
      SeqRegroup(RenderAll(a), RenderAll(b'), Render(b[|b| - 1]));
    }
  }

  lemma RenderAllSnoc(ss: seq<DotStmt>, s: DotStmt)
    ensures RenderAll(ss + [s]) == RenderAll(ss) + Render(s)
  {
    assert (ss + [s])[..|ss|] == ss;
  }

  /** The label of a condition node's box: its name and condition on two lines, or just its name. */
  function CondLabel(name: string, condition: string, showConditionStr: bool): string
  {
    if showConditionStr then "label=" + ("\"" + name + "\\n" + condition + "\"") else name
  }

  /** The part of an edge's attributes naming its dependency's fields, one per line; none for control flow or when fields are hidden. */
  function FieldsLabel(e: Edge, showFields: bool): string
    requires WellFormedEdge(e)
  {
    if e.code != CONTROL_FLOW && showFields then "label=\"" + Join(e.dep.value.fields, ",\n") + "\"" + " decorate=true" else ""
  }

  /** The arrowhead of a successor dependency on a branch outcome: a diamond for the false branch, a dot for the true one. */
  function Arrowhead(e: Edge): string
    requires WellFormedEdge(e)
  {
    if e.code == SUCCESSOR && e.dep.value.value.BoolValue? then
      (if e.dep.value.value.b == false then " arrowhead = diamond" else " arrowhead = dot")
    else ""
  }

  function EdgeStmt(from: string, to: string, e: Edge, showFields: bool): DotStmt
    requires WellFormedEdge(e)
  {
    DepEdge(from, to, Style(e.code), FieldsLabel(e, showFields) + Arrowhead(e))
  }

  /** Whether an edge is drawn: control-flow edges only when they are shown. */
  predicate Shown(e: Edge, showControlFlow: bool)
  {
    showControlFlow || e.code != CONTROL_FLOW
  }

  /** The boxes of the condition nodes among `order`, in order. */
  function Decls(order: seq<string>, info: NodeInfos, showConditionStr: bool): seq<DotStmt>
    requires Elems(order) <= info.Keys && ConditionsKnown(info)
  {
    if order == [] then []
    else
      var k := order[|order| - 1];
      Decls(order[..|order| - 1], info, showConditionStr) +
        (if info[k].0 == ConditionNode then [BoxDecl(k, CondLabel(k, info[k].1.kind.condition, showConditionStr))] else [])
  }

  /** The lines of the edges of `from` that are drawn, in edge order. */
  function NodeEdges(from: string, es: seq<(string, Edge)>, showControlFlow: bool, showFields: bool): seq<DotStmt>
    requires forall i :: 0 <= i < |es| ==> WellFormedEdge(es[i].1)
  {
    if es == [] then []
    else
      var (to, e) := es[|es| - 1];
      NodeEdges(from, es[..|es| - 1], showControlFlow, showFields) +
        (if Shown(e, showControlFlow) then [EdgeStmt(from, to, e, showFields)] else [])
  }

  /** The edge lines of all nodes of `order`, node after node. */
  function AllEdges(order: seq<string>, em: EdgeLists, showControlFlow: bool, showFields: bool): seq<DotStmt>
    requires Elems(order) <= em.Keys && EdgesWellFormed(em)
  {
    if order == [] then []
    else
      var k := order[|order| - 1];
      AllEdges(order[..|order| - 1], em, showControlFlow, showFields) + NodeEdges(k, em[k], showControlFlow, showFields)
  }

  function Header(name: string): string
  {
    "digraph " + name + " {\n"
  }

  /** The whole text `generate_dot` writes. */
  function DotText(name: string, order: seq<string>, info: NodeInfos, em: EdgeLists,
                   showControlFlow: bool, showConditionStr: bool, showFields: bool): string
    requires Elems(order) <= info.Keys && ConditionsKnown(info)
    requires Elems(order) <= em.Keys && EdgesWellFormed(em)
  {
    Header(name) + RenderAll(Decls(order, info, showConditionStr))
      + RenderAll(AllEdges(order, em, showControlFlow, showFields)) + "}\n"
  }

  /** Writing the box of the next node of `order` (or nothing, for a table) extends the text by the next declaration. */
  lemma BoxStep(out0: string, order: seq<string>, i: int, info: NodeInfos, showConditionStr: bool, out: string, line: string)
    requires 0 <= i < |order| && Elems(order) <= info.Keys && ConditionsKnown(info)
    requires out == out0 + RenderAll(Decls(order[..i], info, showConditionStr))
    requires var k := order[i];
             line == if info[k].0 == ConditionNode then Render(BoxDecl(k, CondLabel(k, info[k].1.kind.condition, showConditionStr))) else ""
    ensures out + line == out0 + RenderAll(Decls(order[..i + 1], info, showConditionStr))
  {
    var ds := Decls(order[..i], info, showConditionStr);
    assert order[..i + 1][..i] == order[..i] && order[..i + 1][i] == order[i];
    var k := order[i];
    if info[k].0 == ConditionNode {
      var st := BoxDecl(k, CondLabel(k, info[k].1.kind.condition, showConditionStr));
      RenderAllSnoc(ds, st);
      SeqRegroup(out0, RenderAll(ds), line);
    } else {
      assert ds + [] == ds;
      assert out + line == out;
    }
  }

  /** The box lines of `generate_dot`'s first loop, appended to `out0`. */
  method WriteBoxes(out0: string, order: seq<string>, info: NodeInfos, showConditionStr: bool) returns (out: string)
    requires Elems(order) <= info.Keys && ConditionsKnown(info)
    ensures out == out0 + RenderAll(Decls(order, info, showConditionStr))
  {
    out := out0;
    for i := 0 to |order|
      invariant out == out0 + RenderAll(Decls(order[..i], info, showConditionStr))
    {
      var node := order[i];
      var (type_, p4Node) := info[node];
      if type_ != ConditionNode {
        BoxStep(out0, order, i, info, showConditionStr, out, "");
        assert out + "" == out;
        continue;
      }
      var boxLabel;
      if showConditionStr {
        boxLabel := "\"" + node + "\\n" + p4Node.kind.condition + "\"";
        boxLabel := "label=" + boxLabel;
      } else {
        boxLabel := node;
      }
      var line := node + " [shape=box " + boxLabel + "];\n";
      BoxStep(out0, order, i, info, showConditionStr, out, line);
      out := out + line;
    }
    assert order[..|order|] == order;
  }

  /** Writing the line of the next edge (or nothing, for a hidden one) extends the text by that edge's line. */
  lemma EdgeStep(out0: string, node: string, es: seq<(string, Edge)>, j: int, showControlFlow: bool, showFields: bool,
                 out: string, line: string)
    requires 0 <= j < |es| && forall i :: 0 <= i < |es| ==> WellFormedEdge(es[i].1)
    requires out == out0 + RenderAll(NodeEdges(node, es[..j], showControlFlow, showFields))
    requires line == if Shown(es[j].1, showControlFlow) then Render(EdgeStmt(node, es[j].0, es[j].1, showFields)) else ""
    ensures out + line == out0 + RenderAll(NodeEdges(node, es[..j + 1], showControlFlow, showFields))
  {
    var ls := NodeEdges(node, es[..j], showControlFlow, showFields);
    assert es[..j + 1][..j] == es[..j] && es[..j + 1][j] == es[j];
    if Shown(es[j].1, showControlFlow) {
      var st := EdgeStmt(node, es[j].0, es[j].1, showFields);
      RenderAllSnoc(ls, st);
      SeqRegroup(out0, RenderAll(ls), line);
    } else {
      assert ls + [] == ls;
      assert out + line == out;
    }
  }

  /** The label part of an edge line, as the inner loop builds it. */
  method EdgeLabel(edge: Edge, showFields: bool) returns (edgeLabel: string)
    requires WellFormedEdge(edge)
    ensures edgeLabel == FieldsLabel(edge, showFields) + Arrowhead(edge)
  {
    if edge.code != CONTROL_FLOW && showFields {
      edgeLabel := "label=\"" + Join(edge.dep.value.fields, ",\n") + "\"";
      edgeLabel := edgeLabel + " decorate=true";
    } else {
      edgeLabel := "";
    }
    if edge.code == SUCCESSOR && edge.dep.value.value.BoolValue? {
      if edge.dep.value.value.b == false {
        edgeLabel := edgeLabel + " arrowhead = diamond";
      } else {
        edgeLabel := edgeLabel + " arrowhead = dot";
      }
    } else {
      assert edgeLabel + "" == edgeLabel;
    }
  }

  /** The lines of one node's edges, from `generate_dot`'s inner loop, appended to `out0`. */
  method WriteEdgeLines(out0: string, node: string, es: seq<(string, Edge)>, showControlFlow: bool, showFields: bool)
    returns (out: string)
    requires forall i :: 0 <= i < |es| ==> WellFormedEdge(es[i].1)
    ensures out == out0 + RenderAll(NodeEdges(node, es, showControlFlow, showFields))
  {
    out := out0;
    for j := 0 to |es|
      invariant out == out0 + RenderAll(NodeEdges(node, es[..j], showControlFlow, showFields))
    {
      var (nodeTo, edge) := es[j];
      if !showControlFlow && edge.code == CONTROL_FLOW {
        EdgeStep(out0, node, es, j, showControlFlow, showFields, out, "");
        assert out + "" == out;
        continue;
      }
      var edgeLabel := EdgeLabel(edge, showFields);
      var line := node + " -> " + nodeTo + " [" + Style(edge.code) + " " + edgeLabel + "]" + ";\n";
      EdgeStep(out0, node, es, j, showControlFlow, showFields, out, line);
      out := out + line;
    }
    assert es[..|es|] == es;
  }

  /**
   * `generate_dot` as written, on a snapshot of the graph: the header, a
   * loop over the nodes writing the boxes, then a loop over the nodes and
   * their edges writing the edge lines, and the closing brace.
   */
  method WriteDot(name: string, order: seq<string>, info: NodeInfos, em: EdgeLists,
                  showControlFlow: bool, showConditionStr: bool, showFields: bool) returns (out: string)
    requires Elems(order) <= info.Keys && ConditionsKnown(info)
    requires Elems(order) <= em.Keys && EdgesWellFormed(em)
    ensures out == DotText(name, order, info, em, showControlFlow, showConditionStr, showFields)
  {
    out := "digraph " + name + " {\n";
    out := WriteBoxes(out, order, info, showConditionStr);
    ghost var boxes := out;
    for i := 0 to |order|
      invariant out == boxes + RenderAll(AllEdges(order[..i], em, showControlFlow, showFields))
    {
      ghost var before := AllEdges(order[..i], em, showControlFlow, showFields);
      assert order[..i + 1][..i] == order[..i] && order[..i + 1][i] == order[i];
      var node := order[i];
      ghost var lines := NodeEdges(node, em[node], showControlFlow, showFields);
      out := WriteEdgeLines(out, node, em[node], showControlFlow, showFields);
      assert AllEdges(order[..i + 1], em, showControlFlow, showFields) == before + lines;
      RenderAllAppend(before, lines);
      SeqRegroup(boxes, RenderAll(before), RenderAll(lines));
    }
    assert order[..|order|] == order;
    out := out + "}\n";
  }

  /**
   * Exactly the condition nodes get a box, each one once (when `order`
   * lists every name once), labelled with its condition when asked to.
   */
  lemma {:induction false} DeclsAreConditions(order: seq<string>, info: NodeInfos, showConditionStr: bool)
    requires Elems(order) <= info.Keys && ConditionsKnown(info) && NoDup(order)
    ensures var r := Decls(order, info, showConditionStr);
            && (forall st :: st in r ==> st.BoxDecl? && st.name in Elems(order) && info[st.name].0 == ConditionNode)
            && (forall k :: k in Elems(order) && info[k].0 == ConditionNode ==>
                  BoxDecl(k, CondLabel(k, info[k].1.kind.condition, showConditionStr)) in r)
            && (forall i, j :: 0 <= i < j < |r| ==> r[i].name != r[j].name)
  {
    if order != [] {
      var k := order[|order| - 1];
      var front := order[..|order| - 1];
      assert Elems(order) == Elems(front) + {k};
      assert k !in Elems(front);
      DeclsAreConditions(front, info, showConditionStr);
    }
  }

  /** `st` is the line of the `i`-th edge of `from`, and that edge is drawn. */
  ghost predicate LineOf(from: string, es: seq<(string, Edge)>, i: int, showControlFlow: bool, showFields: bool, st: DotStmt)
  {
    0 <= i < |es| && WellFormedEdge(es[i].1) && Shown(es[i].1, showControlFlow)
    && st == EdgeStmt(from, es[i].0, es[i].1, showFields)
  }

  /** The lines of one node's edges are exactly the lines of its drawn edges. */
  lemma {:induction false} NodeEdgesAreShownEdges(from: string, es: seq<(string, Edge)>, showControlFlow: bool, showFields: bool)
    requires forall i :: 0 <= i < |es| ==> WellFormedEdge(es[i].1)
    ensures forall st :: st in NodeEdges(from, es, showControlFlow, showFields) ==>
              exists i :: LineOf(from, es, i, showControlFlow, showFields, st)
    ensures forall i, st :: LineOf(from, es, i, showControlFlow, showFields, st) ==>
              st in NodeEdges(from, es, showControlFlow, showFields)
  {
    if es != [] {
      var front := es[..|es| - 1];
      var last := |es| - 1;
      NodeEdgesAreShownEdges(from, front, showControlFlow, showFields);
      var r := NodeEdges(from, es, showControlFlow, showFields);
      var rf := NodeEdges(from, front, showControlFlow, showFields);
      assert r == rf + (if Shown(es[last].1, showControlFlow) then [EdgeStmt(from, es[last].0, es[last].1, showFields)] else []);
      forall st | st in r
        ensures exists i :: LineOf(from, es, i, showControlFlow, showFields, st)
      {
        if st in rf {
          var i :| LineOf(from, front, i, showControlFlow, showFields, st);
          assert LineOf(from, es, i, showControlFlow, showFields, st);
        } else {
          assert LineOf(from, es, last, showControlFlow, showFields, st);
        }
      }
      forall i, st | LineOf(from, es, i, showControlFlow, showFields, st)
        ensures st in r
      {
        if i < last {
          assert LineOf(from, front, i, showControlFlow, showFields, st);
        }
      }
    }
  }

  /**
   * The edge lines are exactly the lines of the drawn edges of the nodes
   * of `order`. With control flow hidden, no control-flow edge is drawn.
   */
  lemma {:induction false} AllEdgesAreShownEdges(order: seq<string>, em: EdgeLists, showControlFlow: bool, showFields: bool)
    requires Elems(order) <= em.Keys && EdgesWellFormed(em)
    ensures forall st :: st in AllEdges(order, em, showControlFlow, showFields) ==>
              exists k, i :: k in Elems(order) && k in em && LineOf(k, em[k], i, showControlFlow, showFields, st)
    ensures forall k, i, st :: k in Elems(order) && k in em && LineOf(k, em[k], i, showControlFlow, showFields, st) ==>
              st in AllEdges(order, em, showControlFlow, showFields)
  {
    if order != [] {
      var k := order[|order| - 1];
      var front := order[..|order| - 1];
      assert Elems(order) == Elems(front) + {k};
      AllEdgesAreShownEdges(front, em, showControlFlow, showFields);
      NodeEdgesAreShownEdges(k, em[k], showControlFlow, showFields);
      var r := AllEdges(order, em, showControlFlow, showFields);
      var rf := AllEdges(front, em, showControlFlow, showFields);
      assert r == rf + NodeEdges(k, em[k], showControlFlow, showFields);
      forall st | st in r
        ensures exists k', i :: k' in Elems(order) && k' in em && LineOf(k', em[k'], i, showControlFlow, showFields, st)
      {
        if st in rf {
          var k', i :| k' in Elems(front) && k' in em && LineOf(k', em[k'], i, showControlFlow, showFields, st);
        } else {
          var i :| LineOf(k, em[k], i, showControlFlow, showFields, st);
        }
      }
    }
  }

  /** A hidden control-flow edge has no line, and every line is drawn in its code's style. */
  lemma HiddenControlFlow(order: seq<string>, em: EdgeLists, showFields: bool)
    requires Elems(order) <= em.Keys && EdgesWellFormed(em)
    ensures forall st :: st in AllEdges(order, em, false, showFields) ==> st.DepEdge? && st.style != Style(CONTROL_FLOW)
  {
    AllEdgesAreShownEdges(order, em, false, showFields);
    forall st | st in AllEdges(order, em, false, showFields)
      ensures st.DepEdge? && st.style != Style(CONTROL_FLOW)
    {
      var k, i :| k in Elems(order) && k in em && LineOf(k, em[k], i, false, showFields, st);
      var e := em[k][i].1;
      assert CONTROL_FLOW <= e.code <= MATCH by {
        if e.dep.Some? {
          assert KindCode(e.dep.value.kind).Some?;
        }
      }
      StyleInjective(e.code, CONTROL_FLOW);
    }
  }

  /**
   * The label of a successor dependency on a branch outcome tells the
   * branch: two such edges with the same fields get the same label
   * exactly when they are on the same branch.
   */
  lemma ArrowheadTellsBranch(e1: Edge, e2: Edge, showFields: bool)
    requires WellFormedEdge(e1) && WellFormedEdge(e2)
    requires e1.code == SUCCESSOR && e2.code == SUCCESSOR
    requires e1.dep.value.value.BoolValue? && e2.dep.value.value.BoolValue?
    requires e1.dep.value.fields == e2.dep.value.fields
    ensures FieldsLabel(e1, showFields) + Arrowhead(e1) == FieldsLabel(e2, showFields) + Arrowhead(e2)
            <==> e1.dep.value.value == e2.dep.value.value
  {
    if e1.dep.value.value != e2.dep.value.value {
      assert |Arrowhead(e1)| != |Arrowhead(e2)|;
    }
  }
}
