/**
 * What `dump_parser` guarantees about the text it writes: the dumps of the
 * states a state leads to all come right after its first edge; every state
 * reachable from the start is written exactly once, as its declaration and
 * one edge per `branch_to` entry; tables are never entered; and the edge
 * labels can be read back.
 */
module DotParserProps {
  import opened Wrappers
  import opened Text
  import opened Digraphs
  import opened Hlir
  import opened DotParser

  /** The statements about state `n`, in the order they were written. */
  function Project(ss: seq<ParseStmt>, n: string): seq<ParseStmt>
  {
    if ss == [] then []
    else (if Subject(ss[0]) == n then [ss[0]] else []) + Project(ss[1..], n)
  }

  lemma {:induction false} ProjectAppend(a: seq<ParseStmt>, b: seq<ParseStmt>, n: string)
    ensures Project(a + b, n) == Project(a, n) + Project(b, n)
  {
    if a == [] {
      assert a + b == b;
    } else {
      var h := if Subject(a[0]) == n then [a[0]] else [];
      assert (a + b)[0] == a[0];
      assert (a + b)[1..] == a[1..] + b;
      ProjectAppend(a[1..], b, n);
      assert Project(a + b, n) == h + (Project(a[1..], n) + Project(b, n));
      SeqRegroup(h, Project(a[1..], n), Project(b, n));
    }
  }

  lemma {:induction false} ProjectUniform(ss: seq<ParseStmt>, name: string, n: string)
    requires forall i :: 0 <= i < |ss| ==> Subject(ss[i]) == name
    ensures Project(ss, n) == if n == name then ss else []
  {
    if ss != [] {
      ProjectUniform(ss[1..], name, n);
    }
  }

  // ---------------------------------------------------------------------
  // The shape of one call.

  /** The edges of `branch_to` from entry `i` on, in order. */
  function EdgesFrom(name: string, bt: seq<(CaseKey, ParseTarget)>, i: nat): (r: seq<ParseStmt>)
    requires i <= |bt|
    ensures |r| == |bt| - i
    decreases |bt| - i
  {
    if i == |bt| then [] else [EdgeOf(name, bt[i])] + EdgesFrom(name, bt, i + 1)
  }

  /** What a state's own part of the graph is: its declaration, then one edge per `branch_to` entry. */
  function Own(name: string, state: ParseState): (r: seq<ParseStmt>)
    ensures |r| == 1 + |state.branchTo|
  {
    [Header(name, state)] + EdgesFrom(name, state.branchTo, 0)
  }

  lemma {:induction false} EdgesFromAt(name: string, bt: seq<(CaseKey, ParseTarget)>, i: nat, k: nat)
    requires i + k < |bt|
    ensures EdgesFrom(name, bt, i)[k] == EdgeOf(name, bt[i + k])
    decreases k
  {
    var rest := EdgesFrom(name, bt, i + 1);
    assert EdgesFrom(name, bt, i) == [EdgeOf(name, bt[i])] + rest;
    if k > 0 {
      EdgesFromAt(name, bt, i + 1, k - 1);
      ConsIndex(EdgeOf(name, bt[i]), rest, k);
    }
  }

  /** A state's own part: its declaration first, then the edge of each `branch_to` entry, in order, repeated targets included. */
  lemma OwnShape(name: string, state: ParseState)
    ensures Own(name, state)[0] == Header(name, state)
    ensures forall k :: 0 <= k < |state.branchTo| ==> Own(name, state)[1 + k] == EdgeOf(name, state.branchTo[k])
  {
    forall k | 0 <= k < |state.branchTo|
      ensures Own(name, state)[1 + k] == EdgeOf(name, state.branchTo[k])
    {
      EdgesFromAt(name, state.branchTo, 0, k);
    }
  }

  /** The inner loop appends to what was written before and does not read it. */
  lemma {:induction false} RecurseAcc(g: ParseGraph, bt: seq<(CaseKey, ParseTarget)>, j: nat, visited: set<string>, acc: seq<ParseStmt>)
    requires WellFormedParser(g)
    requires forall e :: e in bt && e.1.StateTarget? ==> e.1.name in g
    requires j <= |bt|
    ensures var r := RecurseSpec(g, bt, j, visited, []);
            RecurseSpec(g, bt, j, visited, acc) == (acc + r.0, r.1)
    decreases |bt| - j
  {
    if j < |bt| {
      if bt[j].1.StateTarget? && bt[j].1.name !in visited {
        assert bt[j] in bt;
        var sub := ParserSpec(g, bt[j].1.name, visited);
        var rest := RecurseSpec(g, bt, j + 1, sub.1, []);
        assert RecurseSpec(g, bt, j, visited, acc) == RecurseSpec(g, bt, j + 1, sub.1, acc + sub.0);
        assert RecurseSpec(g, bt, j, visited, []) == RecurseSpec(g, bt, j + 1, sub.1, [] + sub.0);
        assert [] + sub.0 == sub.0;
        RecurseAcc(g, bt, j + 1, sub.1, acc + sub.0);
        RecurseAcc(g, bt, j + 1, sub.1, sub.0);
        SeqRegroup(acc, sub.0, rest.0);
      } else {
        assert RecurseSpec(g, bt, j, visited, acc) == RecurseSpec(g, bt, j + 1, visited, acc);
        assert RecurseSpec(g, bt, j, visited, []) == RecurseSpec(g, bt, j + 1, visited, []);
        RecurseAcc(g, bt, j + 1, visited, acc);
      }
    } else {
      assert acc + [] == acc;
    }
  }

  /** The inner loop visits every state target from entry `j` on. */
  lemma {:induction false} RecurseCovers(g: ParseGraph, bt: seq<(CaseKey, ParseTarget)>, j: nat, visited: set<string>, acc: seq<ParseStmt>, k: nat)
    requires WellFormedParser(g)
    requires forall e :: e in bt && e.1.StateTarget? ==> e.1.name in g
    requires j <= k < |bt| && bt[k].1.StateTarget?
    ensures bt[k].1.name in RecurseSpec(g, bt, j, visited, acc).1
    decreases |bt| - j
  {
    if bt[j].1.StateTarget? && bt[j].1.name !in visited {
      assert bt[j] in bt;
      var sub := ParserSpec(g, bt[j].1.name, visited);
      if j < k {
        RecurseCovers(g, bt, j + 1, sub.1, acc + sub.0, k);
      }
    } else if j < k {
      RecurseCovers(g, bt, j + 1, visited, acc, k);
    }
  }

  /** Once every state target has been visited, the inner loop writes nothing. */
  lemma {:induction false} RecurseIdle(g: ParseGraph, bt: seq<(CaseKey, ParseTarget)>, j: nat, visited: set<string>, acc: seq<ParseStmt>)
    requires WellFormedParser(g)
    requires forall e :: e in bt && e.1.StateTarget? ==> e.1.name in g
    requires j <= |bt|
    requires forall k :: j <= k < |bt| && bt[k].1.StateTarget? ==> bt[k].1.name in visited
    ensures RecurseSpec(g, bt, j, visited, acc) == (acc, visited)
    decreases |bt| - j
  {
    if j < |bt| {
      RecurseIdle(g, bt, j + 1, visited, acc);
    }
  }

  /** Once every state target has been visited, the edge loop writes only the edges. */
  lemma {:induction false} EdgeLoopIdle(g: ParseGraph, name: string, bt: seq<(CaseKey, ParseTarget)>, i: nat, visited: set<string>, acc: seq<ParseStmt>)
    requires WellFormedParser(g)
    requires forall e :: e in bt && e.1.StateTarget? ==> e.1.name in g
    requires i <= |bt|
    requires forall k :: 0 <= k < |bt| && bt[k].1.StateTarget? ==> bt[k].1.name in visited
    ensures EdgeLoopSpec(g, name, bt, i, visited, acc) == (acc + EdgesFrom(name, bt, i), visited)
    decreases |bt| - i
  {
    if i < |bt| {
      var e := EdgeOf(name, bt[i]);
      EdgeLoopUnfold(g, name, bt, i, visited, acc);
      RecurseIdle(g, bt, 0, visited, acc + [e]);
      assert EdgeLoopSpec(g, name, bt, i, visited, acc) == EdgeLoopSpec(g, name, bt, i + 1, visited, acc + [e]);
      EdgeLoopIdle(g, name, bt, i + 1, visited, acc + [e]);
      assert EdgesFrom(name, bt, i) == [e] + EdgesFrom(name, bt, i + 1);
      SeqRegroup(acc, [e], EdgesFrom(name, bt, i + 1));
    } else {
      assert acc + [] == acc;
    }
  }

  /** The dumps of the states a state leads to: what the inner loop writes on its first turn. */
  function SubDumps(g: ParseGraph, name: string, visited: set<string>): (r: (seq<ParseStmt>, set<string>))
    requires WellFormedParser(g) && name in g
  {
    RecurseSpec(g, g[name].branchTo, 0, visited + {name}, [])
  }

  /**
   * One call of `dump_parser`: the declaration, the first edge, the dumps
   * of all the states `branch_to` leads to that were not yet visited, then
   * the remaining edges. The inner loop runs again after every later edge
   * but finds everything visited.
   */
  lemma ParserLayout(g: ParseGraph, name: string, visited: set<string>)
    requires WellFormedParser(g) && name in g
    ensures var st := g[name];
            var r := ParserSpec(g, name, visited);
            if st.branchTo == [] then r == ([Header(name, st)], visited + {name})
            else
              var sub := SubDumps(g, name, visited);
              r == ([Header(name, st)] + [EdgeOf(name, st.branchTo[0])] + sub.0 + EdgesFrom(name, st.branchTo, 1), sub.1)
  {
    var st := g[name];
    var bt := st.branchTo;
    var w := visited + {name};
    var h := [Header(name, st)];
    if bt != [] {
      var e := EdgeOf(name, bt[0]);
      var sub := SubDumps(g, name, visited);
      EdgeLoopUnfold(g, name, bt, 0, w, h);
      RecurseAcc(g, bt, 0, w, h + [e]);
      forall k | 0 <= k < |bt| && bt[k].1.StateTarget?
        ensures bt[k].1.name in sub.1
      {
        RecurseCovers(g, bt, 0, w, [], k);
      }
      EdgeLoopIdle(g, name, bt, 1, sub.1, h + [e] + sub.0);
    }
  }

  // ---------------------------------------------------------------------
  // Each state written once, in one piece.

  /** What a dump that starts from `visited` and ends with `after` writes about state `n`. */
  ghost function Expected(g: ParseGraph, visited: set<string>, after: set<string>, n: string): seq<ParseStmt>
    requires after <= visited + g.Keys
  {
    if n in after - visited then Own(n, g[n]) else []
  }

  lemma {:induction false} EdgesSubject(name: string, bt: seq<(CaseKey, ParseTarget)>, i: nat)
    requires i <= |bt|
    ensures forall k :: 0 <= k < |EdgesFrom(name, bt, i)| ==> Subject(EdgesFrom(name, bt, i)[k]) == name
    decreases |bt| - i
  {
    if i < |bt| {
      EdgesSubject(name, bt, i + 1);
    }
  }

  /**
   * The statements a dump writes about a state are exactly that state's
   * declaration and edges when the dump visited it, and nothing otherwise.
   */
  lemma {:induction false} ParserProjection(g: ParseGraph, name: string, visited: set<string>, n: string)
    requires WellFormedParser(g) && name in g && name !in visited
    ensures var r := ParserSpec(g, name, visited);
            Project(r.0, n) == Expected(g, visited, r.1, n)
    decreases |g.Keys - (visited + {name})|, 1
  {
    var st := g[name];
    var bt := st.branchTo;
    var w := visited + {name};
    var h := [Header(name, st)];
    var r := ParserSpec(g, name, visited);
    ParserLayout(g, name, visited);
    if bt == [] {
      ProjectUniform(h, name, n);
      assert Own(name, st) == h;
    } else {
      assert forall e :: e in bt && e.1.StateTarget? ==> e.1.name in g;
      var head := h + [EdgeOf(name, bt[0])];
      var sub := SubDumps(g, name, visited);
      var tail := EdgesFrom(name, bt, 1);
      RecurseProjection(g, bt, 0, w, n);
      RecurseProjection(g, bt, 0, w, name);
      EdgesSubject(name, bt, 1);
      ProjectThree(head, sub.0, tail, name, n);
      if n == name {
        SeqRegroup(h, [EdgeOf(name, bt[0])], tail);
        assert Own(name, st) == head + tail;
      } else {
        assert n in r.1 - visited <==> n in sub.1 - w;
      }
    }
  }

  /** Own statements around a stretch that says nothing about their state. */
  lemma ProjectThree(head: seq<ParseStmt>, mid: seq<ParseStmt>, tail: seq<ParseStmt>, name: string, n: string)
    requires forall i :: 0 <= i < |head| ==> Subject(head[i]) == name
    requires forall i :: 0 <= i < |tail| ==> Subject(tail[i]) == name
    requires Project(mid, name) == []
    ensures Project(head + mid + tail, n) == if n == name then head + tail else Project(mid, n)
  {
    ProjectAppend(head + mid, tail, n);
    ProjectAppend(head, mid, n);
    ProjectUniform(head, name, n);
    ProjectUniform(tail, name, n);
    if n == name {
      DropEmpty(head, Project(mid, n), tail);
    } else {
      ConcatEmpty(Project(head, n), Project(mid, n), Project(tail, n));
    }
  }

  lemma {:induction false} RecurseProjection(g: ParseGraph, bt: seq<(CaseKey, ParseTarget)>, j: nat, visited: set<string>, n: string)
    requires WellFormedParser(g)
    requires forall e :: e in bt && e.1.StateTarget? ==> e.1.name in g
    requires j <= |bt|
    ensures var r := RecurseSpec(g, bt, j, visited, []);
            Project(r.0, n) == Expected(g, visited, r.1, n)
    decreases |g.Keys - visited|, 0, |bt| - j
  {
    if j < |bt| {
      if bt[j].1.StateTarget? && bt[j].1.name !in visited {
        assert bt[j] in bt;
        var t := bt[j].1.name;
        VisitShrinks(g.Keys, visited, visited, t);
        var sub := ParserSpec(g, t, visited);
        VisitMonotone(g.Keys, visited, sub.1);
        var rest := RecurseSpec(g, bt, j + 1, sub.1, []);
        assert RecurseSpec(g, bt, j, visited, []) == RecurseSpec(g, bt, j + 1, sub.1, [] + sub.0);
        assert [] + sub.0 == sub.0;
        RecurseAcc(g, bt, j + 1, sub.1, sub.0);
        ParserProjection(g, t, visited, n);
        RecurseProjection(g, bt, j + 1, sub.1, n);
        ProjectAppend(sub.0, rest.0, n);
        var e1 := Expected(g, visited, sub.1, n);
        var e2 := Expected(g, sub.1, rest.1, n);
        if n in sub.1 - visited {
          assert e2 == [];
          ConcatEmpty([], e1, e2);
        } else {
          assert e1 == [];
          ConcatEmpty(e1, e2, []);
        }
      } else {
        RecurseProjection(g, bt, j + 1, visited, n);
      }
    }
  }

  // ---------------------------------------------------------------------
  // The states written are the states reachable from the start.

  /** Every state a dump newly visits is reachable from `a` when `name` is. */
  lemma {:induction false} ParserReach(g: ParseGraph, a: string, name: string, visited: set<string>, n: string)
    requires WellFormedParser(g) && name in g
    requires Reachable(ParseAdj(g), a, name)
    requires n in ParserSpec(g, name, visited).1 - visited
    ensures Reachable(ParseAdj(g), a, n)
    decreases |g.Keys - (visited + {name})|, 1
  {
    if n != name {
      var bt := g[name].branchTo;
      ParserLayout(g, name, visited);
      assert forall e :: e in bt && e.1.StateTarget? ==> e.1.name in g;
      forall k | 0 <= k < |bt| && bt[k].1.StateTarget?
        ensures Reachable(ParseAdj(g), a, bt[k].1.name)
      {
        assert bt[k] in bt;
        assert bt[k].1.name in ParseAdj(g)[name];
        ReachableStep(ParseAdj(g), a, name, bt[k].1.name);
      }
      RecurseReach(g, a, bt, 0, visited + {name}, [], n);
    }
  }

  lemma {:induction false} RecurseReach(g: ParseGraph, a: string, bt: seq<(CaseKey, ParseTarget)>, j: nat, visited: set<string>, acc: seq<ParseStmt>, n: string)
    requires WellFormedParser(g)
    requires forall e :: e in bt && e.1.StateTarget? ==> e.1.name in g
    requires j <= |bt|
    requires forall k :: j <= k < |bt| && bt[k].1.StateTarget? ==> Reachable(ParseAdj(g), a, bt[k].1.name)
    requires n in RecurseSpec(g, bt, j, visited, acc).1 - visited
    ensures Reachable(ParseAdj(g), a, n)
    decreases |g.Keys - visited|, 0, |bt| - j
  {
    if bt[j].1.StateTarget? && bt[j].1.name !in visited {
      assert bt[j] in bt;
      var t := bt[j].1.name;
      VisitShrinks(g.Keys, visited, visited, t);
      var sub := ParserSpec(g, t, visited);
      VisitMonotone(g.Keys, visited, sub.1);
      if n in sub.1 - visited {
        ParserReach(g, a, t, visited, n);
      } else {
        RecurseReach(g, a, bt, j + 1, sub.1, acc + sub.0, n);
      }
    } else {
      RecurseReach(g, a, bt, j + 1, visited, acc, n);
    }
  }

  /** A dump leaves no state that a state it visited branches to unvisited. */
  lemma {:induction false} ParserClosed(g: ParseGraph, name: string, visited: set<string>, n: string, t: string)
    requires WellFormedParser(g) && name in g
    requires n in ParserSpec(g, name, visited).1 - visited && n in g && t in ParseAdj(g)[n]
    ensures t in ParserSpec(g, name, visited).1
    decreases |g.Keys - (visited + {name})|, 1
  {
    var bt := g[name].branchTo;
    ParserLayout(g, name, visited);
    assert forall e :: e in bt && e.1.StateTarget? ==> e.1.name in g;
    if n == name {
      var e :| e in bt && e.1 == StateTarget(t);
      var k :| 0 <= k < |bt| && bt[k] == e;
      RecurseCovers(g, bt, 0, visited + {name}, [], k);
    } else {
      RecurseClosed(g, bt, 0, visited + {name}, [], n, t);
    }
  }

  lemma {:induction false} RecurseClosed(g: ParseGraph, bt: seq<(CaseKey, ParseTarget)>, j: nat, visited: set<string>, acc: seq<ParseStmt>, n: string, t: string)
    requires WellFormedParser(g)
    requires forall e :: e in bt && e.1.StateTarget? ==> e.1.name in g
    requires j <= |bt|
    requires n in RecurseSpec(g, bt, j, visited, acc).1 - visited && n in g && t in ParseAdj(g)[n]
    ensures t in RecurseSpec(g, bt, j, visited, acc).1
    decreases |g.Keys - visited|, 0, |bt| - j
  {
    if bt[j].1.StateTarget? && bt[j].1.name !in visited {
      assert bt[j] in bt;
      var s := bt[j].1.name;
      VisitShrinks(g.Keys, visited, visited, s);
      var sub := ParserSpec(g, s, visited);
      VisitMonotone(g.Keys, visited, sub.1);
      if n in sub.1 - visited {
        ParserClosed(g, s, visited, n, t);
      } else {
        RecurseClosed(g, bt, j + 1, sub.1, acc + sub.0, n, t);
      }
    } else {
      RecurseClosed(g, bt, j + 1, visited, acc, n, t);
    }
  }

  /** The parse states reachable from `root` through `branch_to`; tables end a path. */
  ghost function ReachableStates(g: ParseGraph, root: string): set<string>
  {
    set n | n in g && Reachable(ParseAdj(g), root, n)
  }

  /** A dump from `root` with nothing visited visits exactly the states reachable from it, and no table. */
  lemma ParserVisitsReachable(g: ParseGraph, root: string)
    requires WellFormedParser(g) && root in g
    ensures ParserSpec(g, root, {}).1 == ReachableStates(g, root)
  {
    var adj := ParseAdj(g);
    var r := ParserSpec(g, root, {});
    ReachableRefl(adj, root);
    forall n | n in r.1
      ensures n in ReachableStates(g, root)
    {
      ParserReach(g, root, root, {}, n);
    }
    assert Closed(adj, r.1) by {
      forall u, v | u in r.1 && u in adj && v in adj[u]
        ensures v in r.1
      {
        ParserClosed(g, root, {}, u, v);
      }
    }
    forall n | n in ReachableStates(g, root)
      ensures n in r.1
    {
      ClosedHoldsReachable(adj, r.1, root, n);
    }
  }

  /**
   * The whole dump from `root`: every reachable state is written once, as
   * its declaration and one edge per `branch_to` entry, and no other state is.
   */
  lemma ParserWritesReachableOnce(g: ParseGraph, root: string)
    requires WellFormedParser(g) && root in g
    ensures var out := ParserSpec(g, root, {}).0;
            forall n :: Project(out, n) == if n in ReachableStates(g, root) then Own(n, g[n]) else []
  {
    ParserVisitsReachable(g, root);
    forall n
      ensures Project(ParserSpec(g, root, {}).0, n) == if n in ReachableStates(g, root) then Own(n, g[n]) else []
    {
      ParserProjection(g, root, {}, n);
    }
  }

  // ---------------------------------------------------------------------
  // Labels and field names.

  /** The values of a case that show in its label, in order. */
  function PrintedValues(vs: seq<CaseValue>): (r: seq<CaseValue>)
    ensures forall i :: 0 <= i < |r| ==> Printed(r[i])
  {
    if vs == [] then []
    else PrintedValues(vs[..|vs| - 1]) + (if Printed(vs[|vs| - 1]) then [vs[|vs| - 1]] else [])
  }

  /** Reads one comma-separated piece of a label back as a case value. */
  function ReadValue(p: string): CaseValue
  {
    if p == "default" then DefaultValue
    else if |p| >= 5 && p[..4] == "set(" && p[|p| - 1] == ')' then ValueSet(p[4..|p| - 1])
    else match ParseHex(p)
      case Some(n) => IntValue(n)
      case None => OtherValue
  }

  /** Reads a whole label back: the pieces between ", " separators. */
  function ReadLabel(s: string): (r: seq<CaseValue>)
  {
    if s == "" then []
    else
      var ps := Split(s, ", ");
      seq(|ps|, i requires 0 <= i < |ps| => ReadValue(ps[i]))
  }

  /** The label pieces are the texts of the printed values. */
  lemma {:induction false} PiecesArePrinted(vs: seq<CaseValue>)
    ensures |Pieces(vs)| == |PrintedValues(vs)|
    ensures forall i :: 0 <= i < |Pieces(vs)| ==> Pieces(vs)[i] == ValueText(PrintedValues(vs)[i])
    decreases |vs|
  {
    if vs != [] {
      PiecesArePrinted(vs[..|vs| - 1]);
    }
  }

  /** A printed value's text reads back as that value. */
  lemma ReadValueText(v: CaseValue)
    requires Printed(v)
    ensures ReadValue(ValueText(v)) == v
  {
    match v
    case IntValue(n) =>
      HexRoundTrip(n);
      assert Hex(n)[0] == '0';
    case DefaultValue =>
    case ValueSet(name) =>
      var p := "set(" + name + ")";
      assert p[0] == 's';
      assert p[..4] == "set(";
      assert p[4..|p| - 1] == name;
  }

  /** No piece of a label contains a comma, when no value set's name does. */
  lemma ValueTextNoComma(v: CaseValue)
    requires Printed(v)
    requires v.ValueSet? ==> ',' !in v.setName
    ensures ',' !in ValueText(v) && ValueText(v) != ""
  {
    match v
    case IntValue(n) =>
      HexDigitsParse(n);
      var d := HexDigits(n);
      forall i | 0 <= i < |d|
        ensures d[i] != ','
      {
        assert DigitValue(d[i]).Some?;
      }
      assert Hex(n) == "0x" + d;
    case DefaultValue =>
    case ValueSet(name) =>
      assert "set(" + name + ")" == "set(" + (name + ")");
  }

  /**
   * Reading a label back gives the printed values of the case, in order,
   * as long as no value set's name contains a comma; a case with no
   * printed value gives an empty label.
   */
  lemma LabelRoundTrip(key: CaseKey)
    requires forall v :: v in CaseValues(key) && v.ValueSet? ==> ',' !in v.setName
    ensures ReadLabel(CaseLabel(key)) == PrintedValues(CaseValues(key))
  {
    var vs := CaseValues(key);
    var ps := Pieces(vs);
    var pv := PrintedValues(vs);
    PiecesArePrinted(vs);
    if ps != [] {
      forall x | x in ps
        ensures ',' !in x && x != ""
      {
        var i :| 0 <= i < |ps| && ps[i] == x;
        PrintedAreValues(vs, i);
        ValueTextNoComma(pv[i]);
      }
      assert ps[0] in ps;
      JoinStartsWithFirst(ps, ", ");
      SplitJoin(ps, ", ");
      forall i | 0 <= i < |ps|
        ensures ReadValue(ps[i]) == pv[i]
      {
        ReadValueText(pv[i]);
      }
    }
  }

  /** A printed value is one of the case's values. */
  lemma {:induction false} PrintedAreValues(vs: seq<CaseValue>, i: nat)
    requires i < |PrintedValues(vs)|
    ensures PrintedValues(vs)[i] in vs
    decreases |vs|
  {
    var init := vs[..|vs| - 1];
    if i < |PrintedValues(init)| {
      PrintedAreValues(init, i);
      assert init[..] <= vs;
      assert forall v :: v in init ==> v in vs;
    }
  }

  lemma JoinStartsWithFirst(xs: seq<string>, sep: string)
    requires xs != []
    ensures |Join(xs, sep)| >= |xs[0]|
  {
  }

  /** The label is empty exactly when no value of the case is printed. */
  lemma EmptyLabel(key: CaseKey)
    ensures CaseLabel(key) == "" <==> forall v :: v in CaseValues(key) ==> !Printed(v)
  {
    var vs := CaseValues(key);
    PiecesArePrinted(vs);
    NoPrintedValues(vs);
    if Pieces(vs) != [] {
      assert Pieces(vs)[0] != "";
      JoinStartsWithFirst(Pieces(vs), ", ");
    }
  }

  lemma {:induction false} NoPrintedValues(vs: seq<CaseValue>)
    ensures PrintedValues(vs) == [] <==> forall v :: v in vs ==> !Printed(v)
    decreases |vs|
  {
    if vs != [] {
      var init := vs[..|vs| - 1];
      NoPrintedValues(init);
      assert vs == init + [vs[|vs| - 1]];
    }
  }

  /** A field whose text does not mention "instances." is written as it is. */
  lemma FieldNameKeepsText(f: BranchField)
    requires forall i :: 0 <= i <= |f.text| ==> !OccursAt(f.text, "instances.", i)
    ensures FieldName(f) == if f.TupleField? then "current" + f.text else f.text
  {
    ReplaceAllNoOccurrence(f.text, "instances.", "");
  }
}
