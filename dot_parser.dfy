/**
 * The parse graph writer: `dump_parser`, which walks the parse states from
 * a state, writing a record-shaped declaration per state and one labelled
 * edge per `branch_to` entry. Visited states are kept by name, in a set
 * shared by all recursive calls.
 */
module DotParser {
  import opened Wrappers
  import opened Text
  import opened Digraphs
  import opened Hlir

  // ---------------------------------------------------------------------
  // Declarations: the state's name and the fields it branches on.

  /** `str(elem).replace("instances.", "")`, prefixed with "current" for a tuple (a lookahead). */
  function FieldName(f: BranchField): string
  {
    match f
    case PlainField(t) => ReplaceAll(t, "instances.", "")
    case TupleField(t) => "current" + ReplaceAll(t, "instances.", "")
  }

  function FieldNames(fs: seq<BranchField>): (r: seq<string>)
    ensures |r| == |fs| && forall i :: 0 <= i < |fs| ==> r[i] == FieldName(fs[i])
  {
    seq(|fs|, i requires 0 <= i < |fs| => FieldName(fs[i]))
  }

  /** The record declaration of a state: its name, then the compartment of its fields when it has any. */
  function DeclText(name: string, fields: seq<string>): string
  {
    "   " + name + " [shape=record label=\"{" + name
    + (if fields == [] then "" else " | {" + Join(fields, " | ") + "}")
    + "}\"];\n"
  }

  /** The declaration as `dump_parser` builds it: a " | " after every field, then the last one cut off. */
  method BuildDeclaration(name: string, branchOn: seq<BranchField>) returns (p: string)
    ensures p == DeclText(name, FieldNames(branchOn))
  {
    ghost var fields := FieldNames(branchOn);
    p := "   " + name + " [shape=record label=\"{";
    p := p + name;
    ghost var prefix := p;
    if |branchOn| > 0 {
      p := p + " | {";
      ghost var open := p;
      for i := 0 to |branchOn|
        invariant p == open + JoinTrailing(fields[..i], " | ")
      {
        var elemName := ReplaceAll(branchOn[i].text, "instances.", "");
        if branchOn[i].TupleField? {
          elemName := "current" + elemName;
        }
        assert elemName == fields[i];
        TakeSnoc(fields, i);
        JoinTrailingSnoc(fields[..i], elemName, " | ");
        SeqRegroup(open, JoinTrailing(fields[..i], " | "), elemName + " | ");
        SeqRegroup(open + JoinTrailing(fields[..i], " | "), elemName, " | ");
        SeqRegroup(JoinTrailing(fields[..i], " | "), elemName, " | ");
        p := p + elemName + " | ";
      }
      assert fields[..|branchOn|] == fields;
      JoinTrailingIsJoinPlusSep(fields, " | ");
      DropLastAppend(open, JoinTrailing(fields, " | "), 3);
      TrimmedTrailingIsJoin(fields, " | ");
      p := DropLast(p, 3);
      assert p == prefix + " | {" + Join(fields, " | ");
      p := p + "}";
      SeqRegroup(prefix, " | {", Join(fields, " | "));
      SeqRegroup(prefix, " | {" + Join(fields, " | "), "}");
    } else {
      SeqRegroup(prefix, "", "");
    }
    p := p + "}\"];\n";
  }

  // ---------------------------------------------------------------------
  // Edge labels: the values of a case, comma-separated.

  function CaseValues(key: CaseKey): seq<CaseValue>
  {
    match key
    case SingleCase(v) => [v]
    case CaseList(vs) => vs
  }

  /** Whether a case value shows in a label: a value that is none of an int, `P4_DEFAULT` or a value set is skipped. */
  predicate Printed(v: CaseValue)
  {
    !v.OtherValue?
  }

  /** How a printed case value reads in a label. */
  function ValueText(v: CaseValue): string
    requires Printed(v)
  {
    match v
    case IntValue(n) => Hex(n)
    case DefaultValue => "default"
    case ValueSet(s) => "set(" + s + ")"
  }

  /** The texts of the printed values, in order. */
  function Pieces(vs: seq<CaseValue>): seq<string>
  {
    if vs == [] then []
    else Pieces(vs[..|vs| - 1]) + (if Printed(vs[|vs| - 1]) then [ValueText(vs[|vs| - 1])] else [])
  }

  function CaseLabel(key: CaseKey): string
  {
    Join(Pieces(CaseValues(key)), ", ")
  }

  lemma PiecesSnoc(vs: seq<CaseValue>, i: nat)
    requires i < |vs|
    ensures Pieces(vs[..i + 1]) == Pieces(vs[..i]) + (if Printed(vs[i]) then [ValueText(vs[i])] else [])
  {
    assert vs[..i + 1][..i] == vs[..i];
  }

  /** One more printed value in the trailing-separator form of a label. */
  lemma LabelStep(done: seq<string>, piece: string, written: string)
    requires written == piece + ", "
    ensures JoinTrailing(done, ", ") + written == JoinTrailing(done + [piece], ", ")
  {
    JoinTrailingSnoc(done, piece, ", ");
    SeqRegroup(JoinTrailing(done, ", "), piece, ", ");
  }

  /** The label as `dump_parser` builds it: ", " after every printed value, then the last two characters cut off. */
  method BuildCaseLabel(key: CaseKey) returns (edgeLabel: string)
    ensures edgeLabel == CaseLabel(key)
  {
    var vs := CaseValues(key);
    edgeLabel := "";
    for i := 0 to |vs|
      invariant edgeLabel == JoinTrailing(Pieces(vs[..i]), ", ")
    {
      PiecesSnoc(vs, i);
      edgeLabel := AppendCaseValue(edgeLabel, vs[i], Pieces(vs[..i]));
    }
    assert vs[..|vs|] == vs;
    TrimmedTrailingIsJoin(Pieces(vs), ", ");
    edgeLabel := DropLast(edgeLabel, 2);
  }

  /** One turn of the label loop: a printed value is appended with its ", ". */
  method AppendCaseValue(edgeLabel: string, caseval: CaseValue, ghost done: seq<string>) returns (r: string)
    requires edgeLabel == JoinTrailing(done, ", ")
    ensures r == JoinTrailing(done + (if Printed(caseval) then [ValueText(caseval)] else []), ", ")
  {
    r := edgeLabel;
    if caseval.IntValue? {
      LabelStep(done, Hex(caseval.n), Hex(caseval.n) + ", ");
      r := r + (Hex(caseval.n) + ", ");
    } else if caseval.DefaultValue? {
      LabelStep(done, "default", "default, ");
      r := r + "default, ";
    } else if caseval.ValueSet? {
      LabelStep(done, "set(" + caseval.setName + ")", "set(" + caseval.setName + "), ");
      r := r + "set(" + caseval.setName + "), ";
    } else {
      assert done + [] == done;
    }
  }

  /** Only a table target gets the "__table_" prefix; a state or a conditional keeps its bare name. */
  function DstName(t: ParseTarget): (r: string)
    ensures t.TableTarget? ==> r == "__table_" + t.name
    ensures !t.TableTarget? ==> r == t.name
  {
    match t
    case TableTarget(n) => "__table_" + n
    case StateTarget(n) => n
    case ConditionalTarget(n) => n
  }

  // ---------------------------------------------------------------------
  // The walk.

  /** The statements `dump_parser` writes. */
  datatype ParseStmt =
    | StateDecl(name: string, text: string)
    | CaseEdge(from: string, to: string, caseLabel: string)

  function Subject(s: ParseStmt): string
  {
    match s
    case StateDecl(n, _) => n
    case CaseEdge(a, _, _) => a
  }

  function Render(s: ParseStmt): string
  {
    match s
    case StateDecl(_, t) => t
    case CaseEdge(a, b, l) => "   " + a + " -> " + b + " [label=\"" + l + "\"];\n"
  }

  function RenderAll(ss: seq<ParseStmt>): string
  {
    if ss == [] then "" else Render(ss[0]) + RenderAll(ss[1..])
  }

  function Header(name: string, state: ParseState): ParseStmt
  {
    StateDecl(name, DeclText(name, FieldNames(state.branchOn)))
  }

  function EdgeOf(name: string, entry: (CaseKey, ParseTarget)): ParseStmt
  {
    CaseEdge(name, DstName(entry.1), CaseLabel(entry.0))
  }

  /** What one call of `dump_parser` writes, and the visited set it leaves. */
  function ParserSpec(g: ParseGraph, name: string, visited: set<string>): (r: (seq<ParseStmt>, set<string>))
    requires WellFormedParser(g) && name in g
    ensures visited + {name} <= r.1 <= visited + g.Keys
    decreases |g.Keys - (visited + {name})|, 2, 0
  {
    EdgeLoopSpec(g, name, g[name].branchTo, 0, visited + {name}, [Header(name, g[name])])
  }

  /**
   * The loop over `branch_to` from entry `i` on, after `acc` has been
   * written: the entry's edge, then the inner loop over all of `branch_to`.
   */
  function EdgeLoopSpec(g: ParseGraph, name: string, bt: seq<(CaseKey, ParseTarget)>, i: nat, visited: set<string>, acc: seq<ParseStmt>): (r: (seq<ParseStmt>, set<string>))
    requires WellFormedParser(g)
    requires forall e :: e in bt && e.1.StateTarget? ==> e.1.name in g
    requires i <= |bt|
    ensures visited <= r.1 <= visited + g.Keys
    decreases |g.Keys - visited|, 1, |bt| - i
  {
    if i == |bt| then (acc, visited)
    else
      var inner := RecurseSpec(g, bt, 0, visited, acc + [EdgeOf(name, bt[i])]);
      VisitMonotone(g.Keys, visited, inner.1);
      EdgeLoopSpec(g, name, bt, i + 1, inner.1, inner.0)
  }

  /** The inner loop from entry `j` on: a state target not yet visited is dumped. */
  function RecurseSpec(g: ParseGraph, bt: seq<(CaseKey, ParseTarget)>, j: nat, visited: set<string>, acc: seq<ParseStmt>): (r: (seq<ParseStmt>, set<string>))
    requires WellFormedParser(g)
    requires forall e :: e in bt && e.1.StateTarget? ==> e.1.name in g
    requires j <= |bt|
    ensures visited <= r.1 <= visited + g.Keys
    decreases |g.Keys - visited|, 0, |bt| - j
  {
    if j == |bt| then (acc, visited)
    else if bt[j].1.StateTarget? && bt[j].1.name !in visited then
      assert bt[j] in bt;
      VisitShrinks(g.Keys, visited, visited, bt[j].1.name);
      var sub := ParserSpec(g, bt[j].1.name, visited);
      VisitMonotone(g.Keys, visited, sub.1);
      RecurseSpec(g, bt, j + 1, sub.1, acc + sub.0)
    else RecurseSpec(g, bt, j + 1, visited, acc)
  }

  lemma EdgeLoopUnfold(g: ParseGraph, name: string, bt: seq<(CaseKey, ParseTarget)>, i: nat, visited: set<string>, acc: seq<ParseStmt>)
    requires WellFormedParser(g)
    requires forall e :: e in bt && e.1.StateTarget? ==> e.1.name in g
    requires i < |bt|
    ensures var inner := RecurseSpec(g, bt, 0, visited, acc + [EdgeOf(name, bt[i])]);
            EdgeLoopSpec(g, name, bt, i, visited, acc) == EdgeLoopSpec(g, name, bt, i + 1, inner.1, inner.0)
  {
  }

  /** `dump_parser`: the record declaration, then the loop over `branch_to`. */
  method DumpParser(g: ParseGraph, name: string, visited: set<string>) returns (p: seq<ParseStmt>, visitedOut: set<string>)
    requires WellFormedParser(g) && name in g
    ensures (p, visitedOut) == ParserSpec(g, name, visited)
    decreases |g.Keys - (visited + {name})|, 3
  {
    var state := g[name];
    var decl := BuildDeclaration(name, state.branchOn);
    assert forall e :: e in state.branchTo && e.1.StateTarget? ==> e.1.name in g;
    p, visitedOut := DumpCases(g, name, state.branchTo, visited + {name}, [StateDecl(name, decl)]);
  }

  /** The loop over `branch_to` in `dump_parser`: each entry's edge, then the inner recursion loop. */
  method DumpCases(g: ParseGraph, name: string, bt: seq<(CaseKey, ParseTarget)>, visited: set<string>, acc: seq<ParseStmt>) returns (p: seq<ParseStmt>, visitedOut: set<string>)
    requires WellFormedParser(g)
    requires forall e :: e in bt && e.1.StateTarget? ==> e.1.name in g
    ensures (p, visitedOut) == EdgeLoopSpec(g, name, bt, 0, visited, acc)
    decreases |g.Keys - visited|, 2
  {
    p, visitedOut := acc, visited;
    for i := 0 to |bt|
      invariant visited <= visitedOut
      invariant EdgeLoopSpec(g, name, bt, i, visitedOut, p) == EdgeLoopSpec(g, name, bt, 0, visited, acc)
    {
      var (key, target) := bt[i];
      var edgeLabel := BuildCaseLabel(key);
      EdgeLoopUnfold(g, name, bt, i, visitedOut, p);
      assert CaseEdge(name, DstName(target), edgeLabel) == EdgeOf(name, bt[i]);
      p := p + [CaseEdge(name, DstName(target), edgeLabel)];
      VisitMonotone(g.Keys, visited, visitedOut);
      p, visitedOut := RecurseAll(g, bt, visitedOut, p);
    }
  }

  /** The inner loop of `dump_parser`: every state target of `branch_to` not yet visited is dumped, in order. */
  method RecurseAll(g: ParseGraph, bt: seq<(CaseKey, ParseTarget)>, visited: set<string>, acc: seq<ParseStmt>) returns (p: seq<ParseStmt>, visitedOut: set<string>)
    requires WellFormedParser(g)
    requires forall e :: e in bt && e.1.StateTarget? ==> e.1.name in g
    ensures (p, visitedOut) == RecurseSpec(g, bt, 0, visited, acc)
    decreases |g.Keys - visited|, 1
  {
    p, visitedOut := acc, visited;
    for j := 0 to |bt|
      invariant visited <= visitedOut
      invariant RecurseSpec(g, bt, j, visitedOut, p) == RecurseSpec(g, bt, 0, visited, acc)
    {
      var (_, target) := bt[j];
      if target.StateTarget? && target.name !in visitedOut {
        assert bt[j] in bt;
        VisitShrinks(g.Keys, visited, visitedOut, target.name);
        var sub;
        sub, visitedOut := DumpParser(g, target.name, visitedOut);
        p := p + sub;
      }
    }
  }
}
