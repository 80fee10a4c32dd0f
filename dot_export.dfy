/**
 * The text of the two DOT files the exporter writes: the parse graph
 * (`export_parse_graph`) and the table graph (`export_table_graph`), each a
 * `digraph g { ... }` frame around the walks of `dump_parser` and
 * `dump_table`. Writing the files and running Graphviz on them are not part
 * of this model.
 */
module DotExport {
  import opened Wrappers
  import opened Text
  import opened Digraphs
  import opened Hlir
  import DC = DotControl
  import DP = DotParser
  import DCP = DotControlProps
  import DPP = DotParserProps

  // ---------------------------------------------------------------------
  // The parse graph.

  /** The node drawn for an ingress entry point in the parse graph. */
  function EntryMark(name: string): string
  {
    "   " + "__table_" + name + " [label=" + name + " shape=doublecircle];\n"
  }

  function EntryMarks(ingress: seq<(string, seq<string>)>): string
  {
    if ingress == [] then ""
    else EntryMarks(ingress[..|ingress| - 1]) + EntryMark(ingress[|ingress| - 1].0)
  }

  /** The parse graph file, or `None` where the source fails because the program has no "start" state. */
  function ParseGraphText(prog: Program): (r: Option<string>)
    requires WellFormedParser(prog.parseStates)
    ensures r.None? <==> "start" !in prog.parseStates
  {
    if "start" !in prog.parseStates then None
    else
      Some("digraph g {\n" + "   wire [shape=doublecircle];\n" + EntryMarks(prog.ingress)
           + "   wire -> start\n" + DP.RenderAll(DP.ParserSpec(prog.parseStates, "start", {}).0) + "}\n")
  }

  /** `export_parse_graph`, up to the file write. */
  method ExportParseGraph(prog: Program) returns (r: Option<string>)
    requires WellFormedParser(prog.parseStates)
    ensures r == ParseGraphText(prog)
  {
    if "start" !in prog.parseStates {
      return None;
    }
    var programStr := "digraph g {\n";
    programStr := programStr + "   wire [shape=doublecircle];\n";
    ghost var head := programStr;
    for i := 0 to |prog.ingress|
      invariant programStr == head + EntryMarks(prog.ingress[..i])
    {
      var name := prog.ingress[i].0;
      assert prog.ingress[..i + 1][..i] == prog.ingress[..i];
      SeqRegroup(head, EntryMarks(prog.ingress[..i]), EntryMark(name));
      programStr := programStr + EntryMark(name);
    }
    assert prog.ingress[..|prog.ingress|] == prog.ingress;
    var sub, _ := DP.DumpParser(prog.parseStates, "start", {});
    programStr := programStr + "   wire -> start\n";
    programStr := programStr + DP.RenderAll(sub);
    programStr := programStr + "}\n";
    r := Some(programStr);
  }

  /**
   * The parse graph file holds the walk from "start" with nothing visited:
   * every state reachable from "start" is written once, as its declaration
   * and its edges, and no other state is.
   */
  lemma ParseGraphStates(prog: Program)
    requires WellFormedParser(prog.parseStates) && "start" in prog.parseStates
    ensures var g := prog.parseStates;
            var ss := DP.ParserSpec(g, "start", {}).0;
            && ParseGraphText(prog).value[|ParseGraphText(prog).value| - |DP.RenderAll(ss) + "}\n"|..] == DP.RenderAll(ss) + "}\n"
            && forall n :: DPP.Project(ss, n) == if n in DPP.ReachableStates(g, "start") then DPP.Own(n, g[n]) else []
  {
    var g := prog.parseStates;
    var ss := DP.ParserSpec(g, "start", {}).0;
    var pre := "digraph g {\n" + "   wire [shape=doublecircle];\n" + EntryMarks(prog.ingress) + "   wire -> start\n";
    SeqRegroup(pre, DP.RenderAll(ss), "}\n");
    assert ParseGraphText(prog).value == pre + (DP.RenderAll(ss) + "}\n");
    DPP.ParserWritesReachableOnce(g, "start");
  }

  /**
   * Every ingress entry point is declared in the parse graph under
   * "__table_" and its name, but an edge from a parse state goes there only
   * for a table: an edge to a conditional entry point uses the bare name,
   * not the name the entry point is declared under.
   */
  lemma ConditionalEntryEdge(n: string)
    ensures EntryMark(n) == "   " + ("__table_" + n) + " [label=" + n + " shape=doublecircle];\n"
    ensures DP.DstName(TableTarget(n)) == "__table_" + n
    ensures DP.DstName(ConditionalTarget(n)) == n && n != "__table_" + n
  {
    assert |"__table_" + n| == |n| + 8;
  }

  // ---------------------------------------------------------------------
  // The table graph.

  /** With `predecessors`, the node drawn for a parse state that invokes an entry point, and its edge to it. */
  function InvokerLines(entry: string, invoker: string): string
  {
    InvokerDecl(invoker) + InvokerEdge(entry, invoker)
  }

  function InvokerDecl(invoker: string): string
  {
    "   " + "__parser_" + invoker + " [label=" + invoker + " shape=doublecircle];\n"
  }

  function InvokerEdge(entry: string, invoker: string): string
  {
    "   " + "__parser_" + invoker + " -> " + DC.CallName(Some(entry), "") + "\n"
  }

  function AllInvokerLines(entry: string, invokers: seq<string>): string
  {
    if invokers == [] then ""
    else AllInvokerLines(entry, invokers[..|invokers| - 1]) + InvokerLines(entry, invokers[|invokers| - 1])
  }

  /** What one ingress entry point contributes: its invokers when asked for, then a fresh walk from it that exits to "buffer". */
  function EntryText(g: CtrlGraph, entry: string, invokers: seq<string>, predecessors: bool): string
    requires WellFormedCtrl(g) && entry in g
  {
    (if predecessors then AllInvokerLines(entry, invokers) else "")
    + DC.RenderAll(DC.DumpTableSpec(g, entry, "buffer", {}).0)
  }

  function IngressText(g: CtrlGraph, ingress: seq<(string, seq<string>)>, predecessors: bool): string
    requires WellFormedCtrl(g)
    requires forall i :: 0 <= i < |ingress| ==> ingress[i].0 in g
  {
    if ingress == [] then ""
    else
      var last := ingress[|ingress| - 1];
      IngressText(g, ingress[..|ingress| - 1], predecessors) + EntryText(g, last.0, last.1, predecessors)
  }

  /** The egress pipeline: a walk from its first node that exits to "egress", or a direct edge when there is none. */
  function EgressText(g: CtrlGraph, egress: Option<string>): string
    requires WellFormedCtrl(g)
    requires egress.Some? ==> egress.value in g
  {
    match egress
    case Some(e) => "   buffer -> " + DC.CallName(egress, "") + "\n" + DC.RenderAll(DC.DumpTableSpec(g, e, "egress", {}).0)
    case None => "   buffer -> egress [arrowhead=normal]\n"
  }

  function TableGraphHead(): string
  {
    "digraph g {\n" + "   buffer [shape=doublecircle];\n" + "   egress [shape=doublecircle];\n"
  }

  function TableGraphText(prog: Program, predecessors: bool): string
    requires WellFormedProgram(prog)
  {
    TableGraphHead() + IngressText(prog.ctrl, prog.ingress, predecessors) + EgressText(prog.ctrl, prog.egress) + "}\n"
  }

  /** The invoker loop of `export_table_graph` for one entry point. */
  method AppendInvokers(programStr: string, entry: string, invokers: seq<string>) returns (r: string)
    ensures r == programStr + AllInvokerLines(entry, invokers)
  {
    r := programStr;
    for k := 0 to |invokers|
      invariant r == programStr + AllInvokerLines(entry, invokers[..k])
    {
      var invoker := invokers[k];
      ghost var done := AllInvokerLines(entry, invokers[..k]);
      assert invokers[..k + 1][..k] == invokers[..k];
      assert AllInvokerLines(entry, invokers[..k + 1]) == done + InvokerLines(entry, invoker);
      SeqRegroup(programStr, done, InvokerLines(entry, invoker));
      SeqRegroup(programStr + done, InvokerDecl(invoker), InvokerEdge(entry, invoker));
      r := r + InvokerDecl(invoker);
      r := r + InvokerEdge(entry, invoker);
    }
    assert invokers[..|invokers|] == invokers;
  }

  /** One turn of the entry-point loop of `export_table_graph`. */
  method AppendEntry(programStr: string, g: CtrlGraph, entry: string, invokers: seq<string>, predecessors: bool) returns (r: string)
    requires WellFormedCtrl(g) && entry in g
    ensures r == programStr + EntryText(g, entry, invokers, predecessors)
  {
    r := programStr;
    if predecessors {
      r := AppendInvokers(r, entry, invokers);
    }
    var p, _ := DC.DumpTable(g, entry, "buffer", {});
    SeqRegroup(programStr, if predecessors then AllInvokerLines(entry, invokers) else "", DC.RenderAll(p));
    r := r + DC.RenderAll(p);
  }

  /** `export_table_graph`, up to the file write. */
  method ExportTableGraph(prog: Program, predecessors: bool) returns (programStr: string)
    requires WellFormedProgram(prog)
    ensures programStr == TableGraphText(prog, predecessors)
  {
    programStr := "digraph g {\n";
    programStr := programStr + "   buffer [shape=doublecircle];\n";
    programStr := programStr + "   egress [shape=doublecircle];\n";
    programStr := AppendIngress(programStr, prog.ctrl, prog.ingress, predecessors);
    programStr := AppendEgress(programStr, prog.ctrl, prog.egress);
    programStr := programStr + "}\n";
  }

  /** The entry-point loop of `export_table_graph`. */
  method AppendIngress(programStr: string, g: CtrlGraph, ingress: seq<(string, seq<string>)>, predecessors: bool) returns (r: string)
    requires WellFormedCtrl(g)
    requires forall i :: 0 <= i < |ingress| ==> ingress[i].0 in g
    ensures r == programStr + IngressText(g, ingress, predecessors)
  {
    r := programStr;
    for i := 0 to |ingress|
      invariant r == programStr + IngressText(g, ingress[..i], predecessors)
    {
      var (entry, invokers) := ingress[i];
      ghost var done := IngressText(g, ingress[..i], predecessors);
      assert ingress[..i + 1][..i] == ingress[..i];
      assert ingress[..i + 1][i] == ingress[i];
      assert IngressText(g, ingress[..i + 1], predecessors) == done + EntryText(g, entry, invokers, predecessors);
      SeqRegroup(programStr, done, EntryText(g, entry, invokers, predecessors));
      r := AppendEntry(r, g, entry, invokers, predecessors);
    }
    assert ingress[..|ingress|] == ingress;
  }

  /** The egress part of `export_table_graph`. */
  method AppendEgress(programStr: string, g: CtrlGraph, egress: Option<string>) returns (r: string)
    requires WellFormedCtrl(g)
    requires egress.Some? ==> egress.value in g
    ensures r == programStr + EgressText(g, egress)
  {
    if egress.Some? {
      var link := "   buffer -> " + DC.CallName(egress, "") + "\n";
      r := programStr + link;
      var p, _ := DC.DumpTable(g, egress.value, "egress", {});
      r := r + DC.RenderAll(p);
      SeqRegroup(programStr, link, DC.RenderAll(p));
    } else {
      r := programStr + "   buffer -> egress [arrowhead=normal]\n";
    }
  }

  /**
   * Each ingress entry point gets its own walk, with a fresh visited set:
   * a node reachable from several entry points is written once for each of
   * them, and the nodes of one walk are those reachable from its entry point.
   */
  lemma IngressWalks(prog: Program, i: nat)
    requires WellFormedProgram(prog) && i < |prog.ingress|
    ensures var g := prog.ctrl;
            var ep := prog.ingress[i].0;
            var ss := DC.DumpTableSpec(g, ep, "buffer", {}).0;
            forall n :: DCP.Project(ss, n) == if n in ReachableFrom(g, ep) then DC.Own(n, g[n], "buffer") else []
  {
    DCP.DumpWritesReachableOnce(prog.ctrl, prog.ingress[i].0, "buffer");
  }

  /** The egress walk exits to "egress": every reachable node with an empty `next_` ends in an edge to it. */
  lemma EgressWalk(prog: Program)
    requires WellFormedProgram(prog) && prog.egress.Some?
    ensures var g := prog.ctrl;
            var e := prog.egress.value;
            var ss := DC.DumpTableSpec(g, e, "egress", {}).0;
            forall n :: n in ReachableFrom(g, e) && |g[n].next| == 0 ==>
              DC.ExitEdge(n, "egress") in DCP.Project(ss, n)
  {
    var g := prog.ctrl;
    var e := prog.egress.value;
    DCP.DumpWritesReachableOnce(g, e, "egress");
    forall n | n in ReachableFrom(g, e) && |g[n].next| == 0
      ensures DC.ExitEdge(n, "egress") in DCP.Project(DC.DumpTableSpec(g, e, "egress", {}).0, n)
    {
      var own := DC.Own(n, g[n], "egress");
      assert own[|own| - 1] == DC.ExitEdge(n, "egress");
    }
  }
}
