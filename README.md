# P4 HLIR graph exporters, modelled in Dafny

This project models the two graph exporters of the P4 high-level intermediate
representation (HLIR) and proves what they guarantee.

The first exporter is `p4_hlir/graphs/dot.py`, which writes Graphviz DOT text:
- `dump_table` walks the tables and conditionals of a pipeline from an entry
  point, with a visited set shared by all recursive calls. For every node it
  writes a declaration, its edges (or one collapsed "ALL" edge) and, for a node
  with no successors, an edge to the exit node.
- `dump_parser` walks the parse states in the same way. It writes a record
  declaration per state and one edge per `branch_to` entry. Each edge is
  labelled with the case values (`hex`, `default`, `set(name)`) joined by ", ".
  A target is another parse state, a table (drawn as `__table_` + its name),
  or a conditional ingress entry point (drawn under its bare name). Only a
  state target is walked into.
- `export_parse_graph` and `export_table_graph` put these walks inside a
  `digraph g { ... }` frame.
- A quirk of the source (nothing here was executed): `export_parse_graph`
  declares every ingress entry point as `__table_` + its name
  (`p4_hlir/graphs/dot.py:157`), but `dump_parser` adds that prefix only for
  a table (`p4_hlir/graphs/dot.py:118-120`). An edge from a parse state to a
  conditional entry point therefore goes to the bare name, not to the
  declared entry node. `DotExport.ConditionalEntryEdge` states this.

The second is `p4_hlir/graphs/dependency_graph.py`, the table-dependency graph:
- `Node` objects own their outgoing edges, and each `Edge` carries a dependency
  code, ordered from CONTROL_FLOW (weakest) to MATCH (strongest). A `Graph`
  maps table names to nodes and knows its root.
- `generate_graph` and `generate_graph_without_cf` build the graph with a
  worklist walk over the control flow.
- `topo_sorting` is a depth-first search with three marks.
- `count_min_stages` greedily places tables into pipeline stages along a
  topological order.
- `generate_dot` writes the graph as DOT.

## Modules
- `Wrappers` (wrappers.dfy): `Option`.
- `Text` (text.dfy): Python's `join`, the "append a separator after each item,
  then cut the last one off" idiom, `hex` on naturals with its inverse,
  `str.replace`, and `str.split` as the inverse of `join`.
- `Digraphs` (digraphs.dfy): adjacency maps, paths, reachability, closed sets,
  cycles and topological orders.
- `Hlir` (hlir.dfy): the part of the HLIR the exporters read, as values.
  - Tables, conditionals and parse states are looked up by name. The HLIR
    keeps names unique, so a node's identity is its name.
  - Python dicts (`next_`, `branch_to`, `dependencies_for`, `p4_ingress_ptr`)
    are sequences in iteration order.
  - The iteration order of `set(next_.values())` is a sequence too, listing
    each value once.
- `DotControl` and `DotControlProps` (dot_control*.dfy): `get_call_name` and
  `dump_table`.
  - The methods build the output with loops and recursion, as the source does.
  - Each is proved equal to a specification function that returns the written
    statements and the visited set it leaves.
  - The properties are stated about those functions.
- `DotParser` and `DotParserProps` (dot_parser*.dfy): `dump_parser`, with the
  declaration builder and the edge-label codec, in the same arrangement.
- `DotExport` (dot_export.dfy): the text of the two exported files.
- `DepTypes` (dep_types.dfy): `Dependency`, `Node.CONDITION`/`Node.TABLE`,
  `Edge(dep)`, and edge lists in insertion order.
- `DepTopo` (dep_topo.dfy): the mark bookkeeping of `topo_sorting`.
- `DepStages` (dep_stages.dfy): the placement loop of `count_min_stages`, and
  the proof that its stage assignment is least.
- `DepDot` (dep_dot.dfy): `generate_dot` on a snapshot of the graph.
- `DepGraph` (dep_graph.dfy): the classes `Node` and `Graph` with their methods.
- `DepBuildSpec` (dep_build_spec.dfy): what the walk of `generate_graph`
  builds, stated on the HLIR alone.
- `DepBuild` (dep_build.dfy): `_graph_get_or_add_node`, the worklist walk and
  the `build_table_graph_*` entry points, over the heap-allocated `Graph`.

## Model

| member | source | states |
|---|---|---|
| DotControl.CallName | p4_hlir/graphs/dot.py:25-29 | a present node gives its own name; `None` gives the exit label |
| DotControl.EntryTransitions | p4_hlir/graphs/dot.py:66-75 | one edge per `next_` entry, so as many edges as entries |
| DotControl.Transitions | p4_hlir/graphs/dot.py:50-75 | a node's edges: exactly one when the collapse rule applies, one per `next_` entry otherwise |
| DotControl.DumpTableSpec | p4_hlir/graphs/dot.py:31-84 | a dump adds its node to the visited set, and visits nothing outside the graph |
| DotControl.DumpSuccsSpec | p4_hlir/graphs/dot.py:77-79 | the successor loop only grows the visited set, and only by nodes of the graph |
| DotControl.SuccDump | p4_hlir/graphs/dot.py:78-79 | one successor is dumped or skipped; the visited set only grows within the graph |
| DotControl.DumpSuccsUnfold | p4_hlir/graphs/dot.py:77-79 | the successor loop is the first successor's dump, then the rest of the loop on the visited set it leaves |
| DotControl.DumpEntryEdges | p4_hlir/graphs/dot.py:67-75 | the loop over `next_.items()` writes exactly the per-entry edges, in order |
| DotControl.DumpEdges | p4_hlir/graphs/dot.py:58-75 | writes the collapsed "ALL" edge or the per-entry edges, as `Transitions` defines them |
| DotControl.DumpTable | p4_hlir/graphs/dot.py:31-84 | the recursive dump, with its shared visited set, writes and visits what `DumpTableSpec` gives |
| DotControl.DumpSuccessors | p4_hlir/graphs/dot.py:77-79 | the recursion loop over the distinct successors agrees with `DumpSuccsSpec` |
| DotControl.Render | p4_hlir/graphs/dot.py:41-48 | a table line declares an ellipse, a conditional line a box labelled with its condition, an edge line carries its arrowhead and label, and the exit line has no attributes |
| DotControl.RenderAll | p4_hlir/graphs/dot.py:34-84 | the output of a dump is its lines in the order they are written |
| DotControl.Decl | p4_hlir/graphs/dot.py:40-43 | a table is declared as a table, a conditional together with its condition |
| DotControl.Truthy | p4_hlir/graphs/dot.py:71-74 | a conditional key is truthy when it is `True`, a non-empty string or an action |
| DotControl.ActionName | p4_hlir/graphs/dot.py:52-56 | a string key labels its edge itself, an action key by its name |
| DotControl.HitMiss | p4_hlir/graphs/dot.py:50 | holds exactly when "hit" or "miss" is among the keys of `next_` |
| DotControl.Collapses | p4_hlir/graphs/dot.py:58-59 | holds exactly for a table with one distinct successor and no hit/miss key |
| DotControl.ExitLine | p4_hlir/graphs/dot.py:81-82 | an edge to the exit node exactly when `next_` is empty, nothing otherwise |
| DotControl.Own | p4_hlir/graphs/dot.py:40-82 | what a node contributes itself: its declaration, then its edges, then its exit edge |
| DotControlProps.TableSpecProjection | p4_hlir/graphs/dot.py:35-79 | the statements a dump writes about a node are all of that node's own statements if the dump newly visited it, and none otherwise |
| DotControlProps.SuccsSpecProjection | p4_hlir/graphs/dot.py:77-79 | the same for the successor loop |
| DotControlProps.SuccDumpProjection | p4_hlir/graphs/dot.py:78-79 | the same for one successor |
| DotControlProps.TableSpecReach | p4_hlir/graphs/dot.py:77-79 | every node a dump newly visits is reachable from the entry point |
| DotControlProps.SuccessorsReachable | p4_hlir/graphs/dot.py:58 | the distinct successors of a reachable node are reachable |
| DotControlProps.SuccsSpecReach | p4_hlir/graphs/dot.py:77-79 | the successor loop newly visits only reachable nodes |
| DotControlProps.TableSpecClosed | p4_hlir/graphs/dot.py:77-79 | every successor of a node the dump visited ends up visited |
| DotControlProps.SuccsSpecClosed | p4_hlir/graphs/dot.py:77-79 | the same for the successor loop |
| DotControlProps.SuccsSpecCovers | p4_hlir/graphs/dot.py:77-79 | every successor that is a node is visited when the loop ends, whether this loop dumped it or an earlier one had |
| DotControlProps.DumpVisitsReachable | p4_hlir/graphs/dot.py:35-79 | a dump from a root with nothing visited visits exactly the nodes reachable from it; the recursion ends on cycles and self-loops |
| DotControlProps.DumpWritesReachableOnce | p4_hlir/graphs/dot.py:31-84 | each reachable node is written exactly once (declaration, edges, exit edge) and no other node is |
| DotControlProps.CollapsedEdgeTarget | p4_hlir/graphs/dot.py:58-65 | a table with one distinct successor and no hit/miss key gets the single edge "ALL", arrowhead normal, to that successor |
| DotControlProps.TransitionTargets | p4_hlir/graphs/dot.py:45-75 | the edges leave the node and lead exactly to its successors, with `None` drawn as the exit node |
| DotControlProps.ConditionalEdges | p4_hlir/graphs/dot.py:70-75 | a conditional gets one edge per entry: `dot` for a truthy key, `odot` for a falsy one, empty label |
| DotControlProps.HitMissEdges | p4_hlir/graphs/dot.py:50-69 | a table with a hit/miss key gets one edge per entry, labelled with the key, even when all entries share a successor |
| DotParser.FieldNames | p4_hlir/graphs/dot.py:96-100 | one field name per `branch_on` element, in order |
| DotParser.BuildDeclaration | p4_hlir/graphs/dot.py:92-103 | the record declaration: the name, then the field names joined by " \| " in a compartment, left out when there are no fields |
| DotParser.BuildCaseLabel | p4_hlir/graphs/dot.py:105-116 | the label loop with its trailing ", " cut off gives the printed values joined by ", " |
| DotParser.AppendCaseValue | p4_hlir/graphs/dot.py:109-115 | one turn of the label loop: a printed value is appended with its separator; any other value adds nothing |
| DotParser.DstName | p4_hlir/graphs/dot.py:118-120 | only a table target becomes "__table_" + name; a state or conditional target keeps its bare name |
| DotParser.ParserSpec | p4_hlir/graphs/dot.py:86-128 | a dump adds its state to the name-keyed visited set and visits only states of the graph |
| DotParser.EdgeLoopSpec | p4_hlir/graphs/dot.py:105-127 | the edge loop only grows the visited set, within the graph |
| DotParser.RecurseSpec | p4_hlir/graphs/dot.py:124-126 | the recursion loop only grows the visited set, within the graph |
| DotParser.EdgeLoopUnfold | p4_hlir/graphs/dot.py:105-126 | each turn of the edge loop writes one edge, then runs the whole recursion loop over `branch_to` |
| DotParser.DumpParser | p4_hlir/graphs/dot.py:86-128 | the recursive dump writes and visits what `ParserSpec` gives |
| DotParser.DumpCases | p4_hlir/graphs/dot.py:105-127 | the edge loop with the nested recursion loop agrees with `EdgeLoopSpec` |
| DotParser.RecurseAll | p4_hlir/graphs/dot.py:124-126 | the nested recursion loop agrees with `RecurseSpec` |
| DotParser.FieldName | p4_hlir/graphs/dot.py:97-99 | "instances." removed from the field's text, with "current" in front for a lookahead tuple |
| DotParser.DeclText | p4_hlir/graphs/dot.py:92-103 | the record declaration: the state's name, then the field compartment joined by " \| " only when there are fields |
| DotParser.ValueText | p4_hlir/graphs/dot.py:110-115 | an integer is written in `hex`, the default case as "default", a value set as "set(name)" |
| DotParser.Pieces | p4_hlir/graphs/dot.py:109-115 | the texts of the printed case values, in order, skipping values of any other kind |
| DotParser.CaseLabel | p4_hlir/graphs/dot.py:106-116 | a single case value is treated as a list of one; the label is its printed values joined by ", " |
| DotParser.Render | p4_hlir/graphs/dot.py:92-122 | a state line is its declaration text; an edge line goes from the state to its target, labelled with the case values |
| DotParser.Header | p4_hlir/graphs/dot.py:92-103 | a state is declared with the field names of its `branch_on` |
| DotParserProps.EdgesFrom | p4_hlir/graphs/dot.py:105-122 | one edge line per remaining `branch_to` entry |
| DotParserProps.Own | p4_hlir/graphs/dot.py:92-122 | a state's own statements are one declaration plus one edge per `branch_to` entry |
| DotParserProps.EdgesFromAt | p4_hlir/graphs/dot.py:105-122 | the k-th edge line is the edge of the k-th `branch_to` entry |
| DotParserProps.OwnShape | p4_hlir/graphs/dot.py:92-122 | the declaration comes first, then an edge for every `branch_to` entry in order, including cases that share a target |
| DotParserProps.RecurseAcc | p4_hlir/graphs/dot.py:124-126 | the recursion loop appends to what was written and does not depend on it |
| DotParserProps.RecurseCovers | p4_hlir/graphs/dot.py:124-126 | every state target of `branch_to` is visited after the recursion loop |
| DotParserProps.RecurseIdle | p4_hlir/graphs/dot.py:124-126 | with every state target visited, the recursion loop writes nothing |
| DotParserProps.EdgeLoopIdle | p4_hlir/graphs/dot.py:105-126 | with every state target visited, the edge loop writes only the edges |
| DotParserProps.ParserLayout | p4_hlir/graphs/dot.py:86-128 | one call writes the declaration, the first edge, all sub-state dumps, then the remaining edges; the inner loop is nested in the edge loop |
| DotParserProps.ParserProjection | p4_hlir/graphs/dot.py:86-128 | the statements a dump writes about a state are its own statements if newly visited, and none otherwise |
| DotParserProps.RecurseProjection | p4_hlir/graphs/dot.py:124-126 | the same for the recursion loop |
| DotParserProps.ParserReach | p4_hlir/graphs/dot.py:124-126 | every state a dump newly visits is reachable through `branch_to` |
| DotParserProps.RecurseReach | p4_hlir/graphs/dot.py:124-126 | the same for the recursion loop |
| DotParserProps.ParserClosed | p4_hlir/graphs/dot.py:124-126 | every state a visited state branches to ends up visited |
| DotParserProps.RecurseClosed | p4_hlir/graphs/dot.py:124-126 | the same for the recursion loop |
| DotParserProps.ParserVisitsReachable | p4_hlir/graphs/dot.py:86-128 | a dump with nothing visited visits exactly the reachable parse states and never a table |
| DotParserProps.ParserWritesReachableOnce | p4_hlir/graphs/dot.py:86-128 | every reachable state is written exactly once, as its declaration and its edges, and no other state is |
| DotParserProps.PrintedValues | p4_hlir/graphs/dot.py:109-115 | only ints, `P4_DEFAULT` and value sets are kept |
| DotParserProps.PiecesArePrinted | p4_hlir/graphs/dot.py:109-116 | the label's pieces are the texts of the printed values, one each, in order |
| DotParserProps.ReadValueText | p4_hlir/graphs/dot.py:110-115 | each printed value's text (`hex`, "default", "set(name)") reads back as that value |
| DotParserProps.ValueTextNoComma | p4_hlir/graphs/dot.py:110-115 | a printed value's text is not empty and has no comma, when no value-set name has one |
| DotParserProps.LabelRoundTrip | p4_hlir/graphs/dot.py:105-116 | reading a label back gives the case's printed values in order, a non-list case counting as a one-element list |
| DotParserProps.PrintedAreValues | p4_hlir/graphs/dot.py:109-115 | every printed value comes from the case |
| DotParserProps.EmptyLabel | p4_hlir/graphs/dot.py:105-116 | the label is empty exactly when no value of the case is printed |
| DotParserProps.NoPrintedValues | p4_hlir/graphs/dot.py:109-115 | no value is printed exactly when none is an int, default or a value set |
| DotParserProps.FieldNameKeepsText | p4_hlir/graphs/dot.py:97-99 | a field without "instances." is written unchanged, prefixed with "current" for a tuple |
| DotExport.ParseGraphText | p4_hlir/graphs/dot.py:153-162 | the parse graph text exists exactly when the program has a "start" state |
| DotExport.ExportParseGraph | p4_hlir/graphs/dot.py:153-162 | the step-by-step assembly of `program_str` gives `ParseGraphText` |
| DotExport.ParseGraphStates | p4_hlir/graphs/dot.py:159-162 | the file ends with the dump from "start" and the closing brace; every reachable state appears once, and nothing else |
| DotExport.ConditionalEntryEdge | p4_hlir/graphs/dot.py:118-157 | an entry point is declared as "__table_" + name, and an edge reaches that name for a table target but not for a conditional one |
| DotExport.AppendInvokers | p4_hlir/graphs/dot.py:177-179 | each invoking parse state gets a declaration and an edge to the entry point |
| DotExport.AppendEntry | p4_hlir/graphs/dot.py:175-180 | one entry point adds its invokers when asked for, then its walk exiting to "buffer" |
| DotExport.ExportTableGraph | p4_hlir/graphs/dot.py:170-187 | the step-by-step assembly of `program_str` gives `TableGraphText` |
| DotExport.AppendIngress | p4_hlir/graphs/dot.py:175-180 | the loop over `p4_ingress_ptr` adds the text of each entry point in order |
| DotExport.AppendEgress | p4_hlir/graphs/dot.py:182-186 | the walk from egress exiting to "egress", or a direct buffer-to-egress edge when there is no egress |
| DotExport.IngressWalks | p4_hlir/graphs/dot.py:175-180 | each entry point has its own walk, with a fresh visited set, which writes exactly the nodes reachable from it, once each |
| DotExport.EgressWalk | p4_hlir/graphs/dot.py:182-184 | every reachable node of the egress walk with an empty `next_` has an edge to "egress" |
| DotExport.EntryMark | p4_hlir/graphs/dot.py:156-157 | an ingress entry point is drawn as a double circle named "__table_" plus its name and labelled with its name |
| DotExport.EntryText | p4_hlir/graphs/dot.py:176-180 | an entry point contributes its invoker nodes and edges when predecessors are asked for, then a fresh dump from it that exits to "buffer" |
| DotExport.IngressText | p4_hlir/graphs/dot.py:175-180 | the entry points contribute their texts one after the other, in the order of `p4_ingress_ptr` |
| DotExport.EgressText | p4_hlir/graphs/dot.py:182-186 | with an egress pipeline: an edge from "buffer" to its first node and a fresh dump that exits to "egress"; without one: a direct edge from "buffer" to "egress" |
| DotExport.TableGraphText | p4_hlir/graphs/dot.py:171-187 | the table graph file: the "buffer" and "egress" nodes, the ingress texts, the egress text, and the closing brace |
| Text.DropLast | p4_hlir/graphs/dot.py:101 | Python's `s[0:-k]`: the last k characters dropped, or "" when there are no more |
| Text.JoinTrailingSnoc | p4_hlir/graphs/dot.py:100 | one more `acc += x + sep` adds the item and the separator |
| Text.JoinTrailingIsJoinPlusSep | p4_hlir/graphs/dot.py:96-101 | a non-empty trailing-separator list is the joined list plus one separator |
| Text.TrimmedTrailingIsJoin | p4_hlir/graphs/dot.py:96-101 | cutting the last separator off gives `sep.join(xs)`, the empty list included |
| Text.HexDigitsParse | p4_hlir/graphs/dot.py:111 | the digits `hex` writes are non-empty lower-case hex digits with the number's value |
| Text.HexRoundTrip | p4_hlir/graphs/dot.py:111 | `hex(n)` reads back as n, so `hex` is injective on naturals |
| Text.HexNoLeadingZero | p4_hlir/graphs/dot.py:111 | `hex` writes no leading zero, except for zero itself |
| Text.ReplaceAllNoOccurrence | p4_hlir/graphs/dot.py:97 | `replace` leaves a string without the pattern unchanged |
| Text.ReplaceByEmptyShortens | p4_hlir/graphs/dot.py:97 | removing "instances." never makes a name longer |
| Text.Split | p4_hlir/graphs/dot.py:116 | `split` always gives at least one piece |
| Text.SplitJoin | p4_hlir/graphs/dot.py:116 | splitting a joined list gives the list back, when no item holds the separator's first character |
| Text.Join | p4_hlir/graphs/dot.py:116 | `sep.join(xs)`: the items with the separator between consecutive ones, "" for no items |
| Text.Hex | p4_hlir/graphs/dot.py:111 | `hex(n)`: "0x" followed by the lower-case hexadecimal digits of n, with no leading zero |
| Text.ReplaceAll | p4_hlir/graphs/dot.py:97 | `s.replace(pat, rep)`: every occurrence of the pattern, left to right and without overlap, replaced |
| Hlir.Targets | p4_hlir/graphs/dot.py:77-78 | the successors that are nodes are exactly the non-`None` ones |
| Hlir.StateTargets | p4_hlir/graphs/dot.py:124-125 | the states a `branch_to` list leads to are exactly its state targets |
| Hlir.NextAdjClosed | p4_hlir/graphs/dependency_graph.py:243-250 | in a well-formed HLIR every `next_` successor is a node |
| DepTypes.Get | p4_hlir/graphs/dependency_graph.py:27-34 | `Dependency.get` has a name exactly for REVERSE_READ through MATCH, so CONTROL_FLOW fails |
| DepTypes.KindCode | p4_hlir/graphs/dependency_graph.py:56-63 | the four known kinds map to codes between REVERSE_READ and MATCH |
| DepTypes.NewEdge | p4_hlir/graphs/dependency_graph.py:50-66 | `Edge()` is CONTROL_FLOW with no dep; an unknown dep kind fails; otherwise the edge keeps its dep and is well formed |
| DepTypes.NewEdgeCodes | p4_hlir/graphs/dependency_graph.py:50-66 | an edge's code is a valid code, with a name exactly when the edge has a dep |
| DepTypes.EdgeTargets | p4_hlir/graphs/dependency_graph.py:45-47 | the keys of `edges`, one per edge, in insertion order |
| DepTypes.EdgeTo | p4_hlir/graphs/dependency_graph.py:45-47 | a lookup in `edges` finds only a stored edge |
| DepTypes.EdgeToFinds | p4_hlir/graphs/dependency_graph.py:46 | a lookup fails exactly for a target with no edge |
| DepTypes.EdgeToAppend | p4_hlir/graphs/dependency_graph.py:45-47 | after `add_edge` the new target finds the new edge and every other target finds what it found before |
| DepTypes.AdjOf | p4_hlir/graphs/dependency_graph.py:95 | each node's successors are its edges' targets, in edge order |
| DepGraph.Node.constructor | p4_hlir/graphs/dependency_graph.py:39-43 | a new node has the given name, kind and HLIR node, and no edges |
| DepGraph.Node.AddEdge | p4_hlir/graphs/dependency_graph.py:45-47 | needs a target with no edge yet; the edge is appended and nothing else changes |
| DepGraph.Visit | p4_hlir/graphs/dependency_graph.py:90-100 | `visit`: failure means a cycle; success marks the node and all it reaches permanently and lists them in topological order ahead of the earlier list |
| DepGraph.VisitSuccessors | p4_hlir/graphs/dependency_graph.py:95-97 | the loop over a temporarily marked node's edges lists every successor, or meets a cycle |
| DepGraph.VisitAll | p4_hlir/graphs/dependency_graph.py:102-111 | reports a cycle exactly when the graph has one; without one, lists every node once in topological order |
| DepGraph.Unmarked | p4_hlir/graphs/dependency_graph.py:104-106 | every node starts with mark 0 |
| DepGraph.Graph.constructor | p4_hlir/graphs/dependency_graph.py:69-72 | a new graph has its name, no nodes and no root, and is valid |
| DepGraph.Graph.GetNode | p4_hlir/graphs/dependency_graph.py:74-75 | `get_node` finds a node exactly when one is filed under that name, and returns it |
| DepGraph.Graph.AddNode | p4_hlir/graphs/dependency_graph.py:77-78 | the node is filed under its name, replacing any other; only that name's edges and kind change |
| DepGraph.Graph.SetRoot | p4_hlir/graphs/dependency_graph.py:80-81 | the root becomes the node; nodes, edges and kinds are unchanged |
| DepGraph.Graph.TopoSorting | p4_hlir/graphs/dependency_graph.py:83-115 | no result without a root; a cycle is reported exactly when the graph has one; otherwise every node is listed once and every edge goes forward |
| DepGraph.Graph.CountMinStages | p4_hlir/graphs/dependency_graph.py:117-158 | fails exactly without a root or with a cycle; otherwise the stages are non-empty, hold each table once, respect every edge's code, and are as few as any assignment that respects them |
| DepGraph.Graph.PlaceSorted | p4_hlir/graphs/dependency_graph.py:120-150 | placing along a topological order gives a least stage assignment and leaves the graph unchanged |
| DepGraph.Graph.GenerateDot | p4_hlir/graphs/dependency_graph.py:161-205 | the text written is `DotText` of the graph's names, kinds and edges |
| DepTopo.BackEdgeCycle | p4_hlir/graphs/dependency_graph.py:91-92 | meeting a temporarily marked node closes a cycle |
| DepTopo.PrependTopological | p4_hlir/graphs/dependency_graph.py:98-99 | `insert(0, cur)` keeps the list topological once all of cur's successors are listed |
| DepTopo.MarkTemporary | p4_hlir/graphs/dependency_graph.py:93-94 | mark 1 moves a node from the unmarked to the temporary set |
| DepTopo.MarkPermanent | p4_hlir/graphs/dependency_graph.py:98-99 | mark 2 plus `insert(0, cur)` keeps the list exactly the permanent nodes, once each, topological, closed under successors |
| DepStages.Step | p4_hlir/graphs/dependency_graph.py:135-138 | a dependency pushes one stage later exactly for ACTION and MATCH |
| DepStages.MaxCode | p4_hlir/graphs/dependency_graph.py:147-150 | the strongest positive code recorded for a target is never negative |
| DepStages.MaxCodeTarget | p4_hlir/graphs/dependency_graph.py:147-150 | only an edge's target gets a positive entry |
| DepStages.MaxCodeAtLeast | p4_hlir/graphs/dependency_graph.py:147-150 | every edge's code is accounted for |
| DepStages.StrengthExists | p4_hlir/graphs/dependency_graph.py:147-150 | every graph has its dependency-strength function, and it follows the edges |
| DepStages.RecordDeps | p4_hlir/graphs/dependency_graph.py:147-150 | the edge loop raises each target's `defaultdict` entry to its strongest positive code; entries stay positive |
| DepStages.DepsOfAdd | p4_hlir/graphs/dependency_graph.py:146-150 | adding a table and recording its edges keeps a stage's entries exact |
| DepStages.TightIsLeast | p4_hlir/graphs/dependency_graph.py:123-150 | a tight placement along a topological order puts no table later than any assignment that respects the dependencies |
| DepStages.FindStage | p4_hlir/graphs/dependency_graph.py:124-134 | the search finds the latest stage recording the table, with a positive entry (the assertion at line 131), or -1 and 0 |
| DepStages.FoundStageBounds | p4_hlir/graphs/dependency_graph.py:124-138 | the chosen stage respects every dependency on placed tables and, past stage 0, is forced by one of them |
| DepStages.PlaceOrder | p4_hlir/graphs/dependency_graph.py:135-146 | placing the next table keeps the assignment respectful and tight |
| DepStages.PlacePartition | p4_hlir/graphs/dependency_graph.py:139-146 | adding the table to its stage, opening one if needed, keeps the stages a partition |
| DepStages.PlaceDeps | p4_hlir/graphs/dependency_graph.py:139-150 | recording the table's edges in its stage keeps every stage's entries exact |
| DepStages.PlaceStep | p4_hlir/graphs/dependency_graph.py:123-150 | one round of the placement loop keeps its invariant |
| DepStages.PlacedCover | p4_hlir/graphs/dependency_graph.py:123-146 | once all are placed, every table lies in exactly one stage |
| DepStages.PlacedOrder | p4_hlir/graphs/dependency_graph.py:135-146 | once all are placed, the stages respect every dependency |
| DepStages.PlacedLeast | p4_hlir/graphs/dependency_graph.py:123-150 | any respectful assignment reaches the last stage used |
| DepStages.PlaceTable | p4_hlir/graphs/dependency_graph.py:124-150 | one round: the table goes to the latest recording stage, one later for ACTION/MATCH, stage 0 when none records it |
| DepStages.PlaceTables | p4_hlir/graphs/dependency_graph.py:120-150 | the placement loop partitions the tables into stages, at most one per table, respectfully and tightly |
| DepStages.PlacementStages | p4_hlir/graphs/dependency_graph.py:123-150 | on the edges: each table in one stage; ACTION/MATCH targets strictly later, REVERSE_READ/SUCCESSOR targets no earlier, control flow free |
| DepStages.PlacementLeast | p4_hlir/graphs/dependency_graph.py:123-150 | on the edges: no assignment that respects the codes uses fewer stages |
| DepStages.PlacementMinStages | p4_hlir/graphs/dependency_graph.py:120-158 | a finished placement is a least stage assignment |
| DepStages.AssignStages | p4_hlir/graphs/dependency_graph.py:120-158 | the count and stages past the cycle check form a least stage assignment |
| DepStages.RespectsCodes | p4_hlir/graphs/dependency_graph.py:135-138 | a stage assignment in which every ACTION or MATCH target is strictly later than its source, and every REVERSE_READ or SUCCESSOR target no earlier |
| DepStages.MinStages | p4_hlir/graphs/dependency_graph.py:120-158 | the stages are non-empty, hold each table once, respect every edge's code, and are no more than any assignment that respects the codes needs; none exactly when there are no tables |
| DepDot.StyleInjective | p4_hlir/graphs/dependency_graph.py:165-169 | different codes are drawn in different styles |
| DepDot.BoxStep | p4_hlir/graphs/dependency_graph.py:173-181 | one turn of the box loop writes the next box, or nothing for a table |
| DepDot.WriteBoxes | p4_hlir/graphs/dependency_graph.py:173-181 | the box loop writes the declarations of the condition nodes, in order |
| DepDot.EdgeStep | p4_hlir/graphs/dependency_graph.py:184-204 | one turn of the edge loop writes the edge's line, or nothing for a hidden edge |
| DepDot.EdgeLabel | p4_hlir/graphs/dependency_graph.py:188-201 | the label is the fields part then the arrowhead part |
| DepDot.WriteEdgeLines | p4_hlir/graphs/dependency_graph.py:184-204 | the inner loop writes the lines of the node's shown edges, in edge order |
| DepDot.WriteDot | p4_hlir/graphs/dependency_graph.py:161-205 | the header, the boxes, the edge lines and the closing brace make up `DotText` |
| DepDot.DeclsAreConditions | p4_hlir/graphs/dependency_graph.py:173-181 | exactly the condition nodes get a box, once each, labelled with their condition when asked |
| DepDot.NodeEdgesAreShownEdges | p4_hlir/graphs/dependency_graph.py:184-204 | a node's lines are exactly the lines of its shown edges |
| DepDot.AllEdgesAreShownEdges | p4_hlir/graphs/dependency_graph.py:183-204 | the edge lines are exactly the lines of every node's shown edges |
| DepDot.HiddenControlFlow | p4_hlir/graphs/dependency_graph.py:185-186 | with control flow hidden, no line is drawn in the control-flow style |
| DepDot.ArrowheadTellsBranch | p4_hlir/graphs/dependency_graph.py:197-201 | two SUCCESSOR edges on branch outcomes with the same fields get the same label exactly when on the same branch |
| DepDot.Style | p4_hlir/graphs/dependency_graph.py:165-169 | the `styles` map: dotted for control flow, yellow, green, blue and red for the four dependency kinds |
| DepDot.CondLabel | p4_hlir/graphs/dependency_graph.py:175-180 | a box is labelled with the name and the condition on two lines when conditions are shown, and with the name alone otherwise |
| DepDot.FieldsLabel | p4_hlir/graphs/dependency_graph.py:188-195 | a dependency edge is labelled with its fields, one per line, and decorated when fields are shown; control flow gets no label |
| DepDot.Arrowhead | p4_hlir/graphs/dependency_graph.py:197-201 | a successor dependency on a boolean branch value gets a diamond for `False` and a dot for `True`; other edges get no arrowhead |
| DepDot.Render | p4_hlir/graphs/dependency_graph.py:181-204 | a box line holds its name and label; an edge line holds both ends, the style and the attributes |
| DepDot.Decls | p4_hlir/graphs/dependency_graph.py:173-181 | one box per condition node, in node order; tables get none |
| DepDot.NodeEdges | p4_hlir/graphs/dependency_graph.py:184-204 | one line per edge of the node, in edge order, leaving out control-flow edges when they are hidden |
| DepDot.AllEdges | p4_hlir/graphs/dependency_graph.py:183-204 | the edge lines of each node, node after node |
| DepDot.DotText | p4_hlir/graphs/dependency_graph.py:170-205 | the whole file: the `digraph` header, the boxes, the edge lines, and the closing brace |
| DepBuildSpec.BuiltNothing | p4_hlir/graphs/dependency_graph.py:220-224 | before any visit the graph is empty |
| DepBuildSpec.StartVisit | p4_hlir/graphs/dependency_graph.py:231-233 | getting or adding the visited node starts its visit with no edges |
| DepBuildSpec.VisitAddNode | p4_hlir/graphs/dependency_graph.py:208-217 | getting or adding a new target adds it with no edges |
| DepBuildSpec.VisitAddEdge | p4_hlir/graphs/dependency_graph.py:239-241 | `add_edge` extends the visit by that edge |
| DepBuildSpec.DepEdgesAt | p4_hlir/graphs/dependency_graph.py:238-241 | one edge per `dependencies_for` entry, built from its dependency |
| DepBuildSpec.DepPrefixStep | p4_hlir/graphs/dependency_graph.py:238-241 | each dependency entry adds its edge to a target not listed yet |
| DepBuildSpec.CfPrefixStep | p4_hlir/graphs/dependency_graph.py:243-248 | each successor adds a control-flow edge only if it is a node and not a dependency key, to a target not listed yet |
| DepBuildSpec.CfEdgesAre | p4_hlir/graphs/dependency_graph.py:243-248 | the control-flow edges go exactly to the successors that are nodes and not dependency keys, each once |
| DepBuildSpec.ExpectedTargets | p4_hlir/graphs/dependency_graph.py:238-248 | a visited node's targets are its dependency keys, plus (with control flow) its successors that are nodes |
| DepBuildSpec.ExpectedNoDup | p4_hlir/graphs/dependency_graph.py:238-248 | no target gets two edges, so `add_edge`'s assertion holds |
| DepBuildSpec.ExpectedWellFormed | p4_hlir/graphs/dependency_graph.py:238-248 | every edge is as `Edge(dep)` or `Edge()` builds it |
| DepBuildSpec.FinishVisit | p4_hlir/graphs/dependency_graph.py:231-250 | a visit with all its edges makes the node visited |
| DepBuildSpec.DepSteps | p4_hlir/graphs/dependency_graph.py:238-241 | the dependency loop only adds names to the graph |
| DepBuildSpec.CfSteps | p4_hlir/graphs/dependency_graph.py:243-248 | the successor loop only adds names to the graph |
| DepBuildSpec.AddEdgeStepPartial | p4_hlir/graphs/dependency_graph.py:239-241 | get-or-add then `add_edge` extends the visit by one edge |
| DepBuildSpec.DepStepsPartial | p4_hlir/graphs/dependency_graph.py:238-241 | the dependency loop adds `DepEdges` to the visit |
| DepBuildSpec.CfStepsPartial | p4_hlir/graphs/dependency_graph.py:243-248 | the successor loop adds `CfEdges` to the visit |
| DepBuildSpec.VisitBuilds | p4_hlir/graphs/dependency_graph.py:231-250 | a whole visit turns the graph of the visited nodes into that of one more visited node |
| DepBuildSpec.BuiltValid | p4_hlir/graphs/dependency_graph.py:219-252 | the built graph has no duplicate edges, only edges to its own nodes, well-formed edges, and condition nodes that stand for conditionals |
| DepBuildSpec.DropControlFlowDeps | p4_hlir/graphs/dependency_graph.py:273-286 | dependency edges carry no control-flow edge |
| DepBuildSpec.DropControlFlowCf | p4_hlir/graphs/dependency_graph.py:288-295 | the successor loop adds only control-flow edges |
| DepBuildSpec.AddedWithoutCf | p4_hlir/graphs/dependency_graph.py:254-297 | over a set of visited nodes closed under `next_`, both walks add the same nodes |
| DepBuildSpec.WithoutCfDropsOnlyControlFlow | p4_hlir/graphs/dependency_graph.py:254-297 | the graph without control flow has the same nodes and kinds, and each node's edges are those with control flow minus the control-flow ones, in order |
| DepBuildSpec.ControlFlowCovered | p4_hlir/graphs/dependency_graph.py:243-248 | with control flow, every successor of a visited node is an edge target; control-flow edges never duplicate a dependency |
| DepBuildSpec.TypeOf | p4_hlir/graphs/dependency_graph.py:211-214 | a conditional becomes a CONDITION node, anything else a TABLE node |
| DepBuildSpec.GetOrAdd | p4_hlir/graphs/dependency_graph.py:208-217 | a name already in the graph leaves it unchanged; a new name is added with its type, its HLIR node and no edges |
| DepBuildSpec.DepEdges | p4_hlir/graphs/dependency_graph.py:238-241 | one `Edge(dep)` per entry of `dependencies_for`, in its order |
| DepBuildSpec.CfEdges | p4_hlir/graphs/dependency_graph.py:243-248 | one control-flow edge per distinct successor that is a node and not a key of `dependencies_for` |
| DepBuildSpec.ExpectedEdges | p4_hlir/graphs/dependency_graph.py:238-248 | a visited node gets its dependency edges, then its control-flow edges when control flow is kept |
| DepBuildSpec.Built | p4_hlir/graphs/dependency_graph.py:226-250 | after visiting a set of nodes, the graph holds exactly the nodes reached so far, each built from its HLIR node; visited nodes have all their edges and the others none |
| DepBuild.GetOrAddNode | p4_hlir/graphs/dependency_graph.py:208-217 | idempotent: an existing node is returned and the graph is unchanged; otherwise one new node of the right kind with no edges is added, and its name is appended to the insertion order |
| DepBuild.AddNewNode | p4_hlir/graphs/dependency_graph.py:210-216 | a name not in the graph gets a fresh node, CONDITION exactly for a conditional, and its name goes last in the insertion order |
| DepBuild.AddEdgeInGraph | p4_hlir/graphs/dependency_graph.py:241 | `add_edge` on a filed node changes only that node's edge list |
| DepBuild.AddEdgeTo | p4_hlir/graphs/dependency_graph.py:239-241 | get-or-add the target, then add the edge |
| DepBuild.ProcessEdges | p4_hlir/graphs/dependency_graph.py:238-248 | a node's two edge loops produce `VisitEdges` |
| DepBuild.AddDependencyEdges | p4_hlir/graphs/dependency_graph.py:238-241 | the loop gives the node `DepEdges` of its `dependencies_for`, in dict order |
| DepBuild.DependencyRound | p4_hlir/graphs/dependency_graph.py:239-241 | one dependency entry adds its edge |
| DepBuild.AddControlFlowEdges | p4_hlir/graphs/dependency_graph.py:243-248 | the successor loop adds a control-flow edge to each successor that is a node and not a dependency key |
| DepBuild.ControlFlowRound | p4_hlir/graphs/dependency_graph.py:245-248 | one successor adds its edge, or nothing when it is `None` or a dependency key |
| DepBuild.GenerateGraphWith | p4_hlir/graphs/dependency_graph.py:219-252 | in any pop order: a valid graph of exactly the nodes `Built` gives for the nodes reachable from the root; the root is the first visited node, none for a `None` root |
| DepBuild.WalkInit | p4_hlir/graphs/dependency_graph.py:220-224 | the walk starts from an empty graph with only the root waiting |
| DepBuild.WalkFinish | p4_hlir/graphs/dependency_graph.py:226-252 | an empty worklist leaves a valid graph built from all the reachable nodes |
| DepBuild.WalkStep | p4_hlir/graphs/dependency_graph.py:226-250 | one round keeps the walk's invariant and shrinks the unvisited nodes or the worklist, so the walk ends |
| DepBuild.VisitNode | p4_hlir/graphs/dependency_graph.py:231-248 | visiting a node sets the root on the first visit and builds that node's part of the graph |
| DepBuild.WorkStart | p4_hlir/graphs/dependency_graph.py:221-222 | the worklist starts holding only the root |
| DepBuild.WorkPop | p4_hlir/graphs/dependency_graph.py:227-229 | skipping a visited or `None` entry keeps the worklist's bookkeeping |
| DepBuild.WorkVisit | p4_hlir/graphs/dependency_graph.py:231-250 | visiting a popped node keeps the bookkeeping and leaves one node fewer to visit; the first one visited is the root |
| DepBuild.WalkVisit | p4_hlir/graphs/dependency_graph.py:231-250 | the same, for a given set of reachable nodes |
| DepBuild.WorkDone | p4_hlir/graphs/dependency_graph.py:226 | once the worklist is empty, the visited nodes are exactly the reachable ones |
| DepBuild.ReachSuccessors | p4_hlir/graphs/dependency_graph.py:243-250 | a reachable node's successors are reachable |
| DepBuild.WalkComplete | p4_hlir/graphs/dependency_graph.py:226-252 | visited nodes that hold the root and that no `next_` edge leaves are all the reachable nodes |
| DepBuild.BuildTableGraphIngress | p4_hlir/graphs/dependency_graph.py:300-306 | a graph named "ingress", walked from the first ingress entry point and rooted there; `None` exactly when there is none |
| DepBuild.BuildTableGraphEgress | p4_hlir/graphs/dependency_graph.py:308-309 | a graph named "egress" walked with control flow from egress; empty and rootless without egress |
| Digraphs.TopologicalMeansAcyclic | p4_hlir/graphs/dependency_graph.py:115-119 | a graph whose nodes are all listed once in topological order has no cycle, so the assertion of `count_min_stages` holds |
| Digraphs.ClosedHoldsReachable | p4_hlir/graphs/dependency_graph.py:226-250 | a set holding the root that no edge leaves holds everything reachable |

## Left out
- File output and Graphviz are not modelled. This covers `generate_graph_png`, `generate_graph_eps` and dot.py's `generate_graph` (p4_hlir/graphs/dot.py:130-151), which write files and run an external process. It also covers the file opens and writes in `export_parse_graph` and `export_table_graph`. The model returns the text that would be written.
- `export_table_dependency_graph` and `export_table_dependency_graph_without_cf` are not modelled. They only orchestrate calls that are modelled, and their own work is printing and writing files.
- The `rmt` exports are not modelled. They call `p4_hlir.hlir.table_dependency`, which is not part of this model.
- The printing loop of `count_min_stages` is not modelled, and neither is its `show_conds` parameter, which only filters what is printed. `Graph.CountMinStages` returns the stage list along with the count.
- Python iteration orders are data, not computed:
  - the order of `set(next_.values())` is a sequence in each HLIR node, listing each value once;
  - Python 2 dicts iterate in hash order, but the model takes dict order as a sequence: the HLIR's dicts are sequences, and `Graph.nodes` and `Node.edges` follow insertion order;
  - the result of `TopoSorting` and `CountMinStages` holds for any order, but the line order of the DOT texts is the model's choice.
- The arbitrary choice of `next_tables.pop()` is a nondeterministic `:|` choice. `DepBuild.GenerateGraphWith` is proved for every choice.
- `hlir.p4_ingress_ptr.keys()[0]` is the first entry of the ingress sequence. With no entry, the source raises; `DepBuild.BuildTableGraphIngress` returns `None`.
- One method stands for each pair of graph builders:
  - `DepBuild.GenerateGraphWith` is `generate_graph` when `controlFlow` is true and `generate_graph_without_cf` when it is false;
  - `DepBuild.BuildTableGraphIngress` covers `build_table_graph_ingress` and `build_table_graph_ingress_without_cf` in the same way.
- Graph nodes are identified by name:
  - the source keys `Node.edges` by `Node` objects and `visited` by HLIR objects;
  - the HLIR keeps names unique, so the model keys both by name.
- The `mark` attributes of `topo_sorting` are a map local to the search. The source deletes them at the end, so the graph is unchanged either way.
- The dependency classes are reduced to an abstract kind, a list of field texts and a value:
  - the kinds are `ReverseReadDep`, `SuccessorDep`, `ActionDep`, `MatchDep` and any other;
  - the value is a boolean or opaque.
- `str(node.condition)`, `str(field)` and `str(elem)` are given texts.
- The HLIR's own guarantees are preconditions (`WellFormedCtrl`, `WellFormedParser`, `WellFormedProgram`, `KnownDeps`):
  - names refer to existing nodes;
  - dict keys are distinct;
  - only conditionals branch on booleans;
  - every dependency in `dependencies_for` is of a known kind, so `Edge(dep)` never fails its assertion.
- Case values are naturals. Python 2's `long` suffix and negative `hex` are not modelled. Values that are none of int, default or value set are one opaque case.
- Escaping of DOT keywords in names is not done by the source and is not modelled.
- `generate_dot` writes to a stream; `DepGraph.Graph.GenerateDot` returns the whole text instead.
- DotParserProps.LabelRoundTrip: holds only when no value-set name contains a comma. Otherwise the label cannot be read back, and the source does not escape it.
- Text.SplitJoin: holds only when no item contains the separator's first character.
