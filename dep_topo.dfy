/**
 * The marks of `topo_sorting`'s depth-first search (0 unmarked, 1
 * temporary, 2 permanent) and the facts about them that the search relies
 * on: the temporarily marked nodes form the current path, and the
 * permanently marked ones are listed in topological order with all their
 * successors.
 */
module DepTopo {
  import opened Digraphs

  type Marks = map<string, int>

  function White(mark: Marks): set<string>
  {
    set k | k in mark && mark[k] == 0
  }

  function Gray(mark: Marks): set<string>
  {
    set k | k in mark && mark[k] == 1
  }

  function Black(mark: Marks): set<string>
  {
    set k | k in mark && mark[k] == 2
  }

  ghost predicate MarksInRange(mark: Marks)
  {
    forall k :: k in mark ==> 0 <= mark[k] <= 2
  }

  /** Every successor of a permanently marked node is permanently marked. */
  ghost predicate BlackClosed(adj: Adj, mark: Marks)
  {
    forall u, v :: u in Black(mark) && u in adj && v in adj[u] ==> v in Black(mark)
  }

  /** A node reached again while it is still on the search path closes a cycle. */
  lemma BackEdgeCycle(adj: Adj, stack: seq<string>, cur: string)
    requires IsPath(adj, stack + [cur]) && cur in stack
    ensures HasCycle(adj)
  {
    var k :| 0 <= k < |stack| && stack[k] == cur;
    var p := stack[k..] + [cur];
    assert (stack + [cur])[k..] == p;
    assert IsPath(adj, p) by {
      forall i | 0 <= i < |p| - 1
        ensures p[i] in adj && p[i + 1] in adj[p[i]]
      {
        assert p[i] == (stack + [cur])[k + i] && p[i + 1] == (stack + [cur])[k + i + 1];
      }
    }
    assert |p| >= 2 && p[0] == p[|p| - 1];
  }

  /** A path extends by one edge out of its last node. */
  lemma PathExtend(adj: Adj, p: seq<string>, v: string)
    requires IsPath(adj, p) && p[|p| - 1] in adj && v in adj[p[|p| - 1]]
    ensures IsPath(adj, p + [v])
  {
    var q := p + [v];
    forall i | 0 <= i < |q| - 1
      ensures q[i] in adj && q[i + 1] in adj[q[i]]
    {
      assert q[i] == p[i];
      if i + 1 < |p| {
        assert q[i + 1] == p[i + 1];
      }
    }
  }

  /** Listing a node in front keeps the order topological when all its successors are listed and no listed node leads to it. */
  lemma PrependTopological(adj: Adj, cur: string, s: seq<string>)
    requires IsTopological(adj, s) && cur !in s
    requires cur in adj ==> forall v :: v in adj[cur] ==> v in s
    requires forall u :: u in s && u in adj ==> cur !in adj[u]
    ensures IsTopological(adj, [cur] + s)
  {
    var t := [cur] + s;
    forall i, j | 0 <= i < |t| && 0 <= j < |t| && t[i] in adj && t[j] in adj[t[i]]
      ensures i < j
    {
      assert t[0] == cur;
      if i > 0 {
        assert t[i] == s[i - 1];
        if j > 0 {
          assert t[j] == s[j - 1];
        }
      }
    }
  }

  /** Marking an unmarked node temporarily moves it from the unmarked to the temporary set. */
  lemma MarkTemporary(mark: Marks, cur: string)
    requires cur in mark && mark[cur] == 0
    ensures White(mark[cur := 1]) == White(mark) - {cur}
    ensures Gray(mark[cur := 1]) == Gray(mark) + {cur}
    ensures Black(mark[cur := 1]) == Black(mark)
  {
  }

  /**
   * Marking `cur` permanently once all its successors are listed, and
   * listing it in front, keeps the listed nodes exactly the permanent ones,
   * once each, in topological order, closed under successors.
   */
  lemma MarkPermanent(adj: Adj, mark: Marks, m: Marks, s: seq<string>, cur: string)
    requires MarksInRange(m) && m.Keys == mark.Keys && cur in mark && mark[cur] == 0 && m[cur] == 1
    requires White(m) <= White(mark) && Gray(m) == Gray(mark) + {cur} && Black(mark) <= Black(m)
    requires Black(m) == Elems(s) && NoDup(s) && IsTopological(adj, s) && BlackClosed(adj, m)
    requires cur in adj ==> forall v :: v in adj[cur] ==> v in s
    ensures var m' := m[cur := 2];
            && MarksInRange(m') && m'.Keys == mark.Keys && White(m') <= White(mark)
            && cur in Black(m') && Gray(m') == Gray(mark) && Black(mark) <= Black(m')
            && Black(m') == Elems([cur] + s) && NoDup([cur] + s)
            && IsTopological(adj, [cur] + s) && BlackClosed(adj, m')
  {
    var m' := m[cur := 2];
    assert cur !in Black(m);
    assert White(m') == White(m);
    assert Gray(m') == Gray(m) - {cur};
    assert Black(m') == Black(m) + {cur};
    assert Elems([cur] + s) == {cur} + Elems(s);
    PrependTopological(adj, cur, s);
  }

  /** The first `i + 1` names all lie in a set once the first `i` lay in a smaller one and name `i` lies in it. */
  lemma PrefixGrows(names: seq<string>, i: nat, before: set<string>, after: set<string>)
    requires i < |names| && before <= after && names[i] in after
    requires forall j :: 0 <= j < i ==> names[j] in before
    ensures forall j :: 0 <= j < i + 1 ==> names[j] in after
  {
  }
}
