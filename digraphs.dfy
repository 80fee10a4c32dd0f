/**
 * Directed graphs given as adjacency: a node name maps to the names of its
 * successors, in iteration order. Paths, reachability, closed sets and
 * cycles, shared by the DOT walks and the table-dependency graph.
 */
module Digraphs {

  type Adj = map<string, seq<string>>

  predicate NoDup<T(==)>(s: seq<T>)
  {
    forall i, j :: 0 <= i < j < |s| ==> s[i] != s[j]
  }

  function Elems<T>(s: seq<T>): set<T>
  {
    set x | x in s
  }

  /** Every successor named in `adj` is itself a node of `adj`. */
  ghost predicate AdjClosed(adj: Adj)
  {
    forall u, v :: u in adj && v in adj[u] ==> v in adj
  }

  /** `p` follows edges of `adj` from its first to its last node. */
  ghost predicate IsPath(adj: Adj, p: seq<string>)
  {
    |p| >= 1 && forall i :: 0 <= i < |p| - 1 ==> p[i] in adj && p[i + 1] in adj[p[i]]
  }

  ghost predicate Reachable(adj: Adj, a: string, b: string)
  {
    exists p :: IsPath(adj, p) && p[0] == a && p[|p| - 1] == b
  }

  /** No edge of `adj` leaves `s`. */
  ghost predicate Closed(adj: Adj, s: set<string>)
  {
    forall u, v :: u in s && u in adj && v in adj[u] ==> v in s
  }

  /** Some path of at least one edge comes back to where it started. */
  ghost predicate HasCycle(adj: Adj)
  {
    exists p :: IsPath(adj, p) && |p| >= 2 && p[0] == p[|p| - 1]
  }

  lemma ReachableRefl(adj: Adj, a: string)
    ensures Reachable(adj, a, a)
  {
    assert IsPath(adj, [a]);
  }

  /** A reachable node's successors are reachable. */
  lemma ReachableStep(adj: Adj, a: string, b: string, c: string)
    requires Reachable(adj, a, b) && b in adj && c in adj[b]
    ensures Reachable(adj, a, c)
  {
    var p :| IsPath(adj, p) && p[0] == a && p[|p| - 1] == b;
    var q := p + [c];
    assert IsPath(adj, q);
    assert q[0] == a && q[|q| - 1] == c;
  }

  /** Reachability is transitive. */
  lemma {:induction false} ReachableTrans(adj: Adj, a: string, b: string, c: string)
    requires Reachable(adj, a, b) && Reachable(adj, b, c)
    ensures Reachable(adj, a, c)
  {
    var p :| IsPath(adj, p) && p[0] == a && p[|p| - 1] == b;
    var q :| IsPath(adj, q) && q[0] == b && q[|q| - 1] == c;
    var r := p + q[1..];
    assert IsPath(adj, r) by {
      forall i | 0 <= i < |r| - 1
        ensures r[i] in adj && r[i + 1] in adj[r[i]]
      {
        if i < |p| - 1 {
          assert r[i] == p[i] && r[i + 1] == p[i + 1];
        } else {
          assert r[i] == q[i - |p| + 1] && r[i + 1] == q[i - |p| + 2];
        }
      }
    }
    assert r[|r| - 1] == c;
  }

  /** A set that contains `a` and that no edge leaves contains every node reachable from `a`. */
  lemma {:induction false} ClosedHoldsReachable(adj: Adj, s: set<string>, a: string, b: string)
    requires a in s && Closed(adj, s) && Reachable(adj, a, b)
    ensures b in s
  {
    var p :| IsPath(adj, p) && p[0] == a && p[|p| - 1] == b;
    var i := 0;
    while i < |p| - 1
      invariant 0 <= i <= |p| - 1
      invariant p[i] in s
    {
      assert p[i] in adj && p[i + 1] in adj[p[i]];
      i := i + 1;
    }
  }

  /**
   * An order in which every edge between listed nodes goes forward.
   */
  ghost predicate IsTopological(adj: Adj, s: seq<string>)
  {
    forall i, j :: 0 <= i < |s| && 0 <= j < |s| && s[i] in adj && s[j] in adj[s[i]] ==> i < j
  }

  /** Along a path, a topological order puts every later node after the first. */
  lemma PathGoesForward(adj: Adj, s: seq<string>, p: seq<string>, i0: nat)
    requires AdjClosed(adj) && adj.Keys <= Elems(s) && IsTopological(adj, s)
    requires IsPath(adj, p) && |p| >= 2 && i0 < |s| && s[i0] == p[0]
    ensures exists j :: i0 < j < |s| && s[j] == p[|p| - 1]
  {
    var k := 1;
    assert p[0] in adj && p[1] in adj[p[0]];
    var ik :| 0 <= ik < |s| && s[ik] == p[1];
    while k < |p| - 1
      invariant 1 <= k <= |p| - 1
      invariant 0 <= ik < |s| && s[ik] == p[k] && i0 < ik
    {
      assert p[k] in adj && p[k + 1] in adj[p[k]];
      var next :| 0 <= next < |s| && s[next] == p[k + 1];
      ik, k := next, k + 1;
    }
  }

  /** A graph whose nodes can all be listed, once each, in a topological order has no cycle. */
  lemma TopologicalMeansAcyclic(adj: Adj, s: seq<string>)
    requires AdjClosed(adj) && NoDup(s) && adj.Keys <= Elems(s) && IsTopological(adj, s)
    ensures !HasCycle(adj)
  {
    forall p | IsPath(adj, p) && |p| >= 2
      ensures p[0] != p[|p| - 1]
    {
      assert p[0] in adj;
      var i0 :| 0 <= i0 < |s| && s[i0] == p[0];
      PathGoesForward(adj, s, p, i0);
      var j :| i0 < j < |s| && s[j] == p[|p| - 1];
      assert s[i0] != s[j];
    }
  }

  /** Two sequences without repeats and with no element in common concatenate without repeats. */
  lemma NoDupAppend<T>(a: seq<T>, b: seq<T>)
    requires NoDup(a) && NoDup(b) && forall x :: x in a ==> x !in b
    ensures NoDup(a + b)
  {
    forall i, j | 0 <= i < j < |a + b|
      ensures (a + b)[i] != (a + b)[j]
    {
      if i < |a| && j >= |a| {
        assert (a + b)[i] in a && (a + b)[j] == b[j - |a|];
      }
    }
  }

  /** A list without repeats has as many distinct elements as entries. */
  lemma {:induction false} NoDupCard<T>(s: seq<T>)
    requires NoDup(s)
    ensures |Elems(s)| == |s|
  {
    if s != [] {
      var t := s[..|s| - 1];
      NoDupCard(t);
      assert Elems(s) == Elems(t) + {s[|s| - 1]};
      assert s[|s| - 1] !in Elems(t);
    }
  }

  lemma SubsetCard<T>(a: set<T>, b: set<T>)
    requires a <= b
    ensures |a| <= |b|
    decreases |a|
  {
    if a != {} {
      var x :| x in a;
      SubsetCard(a - {x}, b - {x});
    }
  }

  /** A list has at most as many distinct elements as entries. */
  lemma {:induction false} ElemsCard<T>(s: seq<T>)
    ensures |Elems(s)| <= |s|
  {
    if s != [] {
      var t := s[..|s| - 1];
      ElemsCard(t);
      assert Elems(s) == Elems(t) + {s[|s| - 1]};
    }
  }

  /** A list with as many distinct elements as entries has no repeats. */
  lemma {:induction false} CardNoDup<T>(s: seq<T>)
    requires |Elems(s)| == |s|
    ensures NoDup(s)
  {
    if s != [] {
      var t, x := s[..|s| - 1], s[|s| - 1];
      assert s == t + [x];
      assert Elems(s) == Elems(t) + {x};
      ElemsCard(t);
      CardNoDup(t);
      NoDupAppend(t, [x]);
    }
  }

  /** A subset as large as its superset is all of it. */
  lemma SubsetCardEq<T>(a: set<T>, b: set<T>)
    requires a <= b && |a| == |b|
    ensures a == b
  {
    if a != b {
      assert b - a != {} by {
        if b - a == {} {
          forall x | x in b
            ensures x in a
          {
            assert x !in b - a;
          }
        }
      }
      var x :| x in b - a;
      SubsetCard(a, b - {x});
    }
  }

  /** A list as long as a set that holds every element of the set lists each of them exactly once. */
  lemma ListedOnce<T>(s: seq<T>, keys: set<T>)
    requires |s| == |keys| && forall k :: k in keys ==> k in s
    ensures NoDup(s) && Elems(s) == keys
  {
    ElemsCard(s);
    SubsetCard(keys, Elems(s));
    CardNoDup(s);
    SubsetCardEq(keys, Elems(s));
  }

  /** Visiting one more node of `k` shrinks the part of `k` still to visit. */
  lemma VisitShrinks(k: set<string>, before: set<string>, after: set<string>, c: string)
    requires before <= after && c in k && c !in after
    ensures |k - (after + {c})| < |k - before|
  {
    SubsetCard(k - (after + {c}), k - before - {c});
  }

  lemma VisitMonotone(k: set<string>, before: set<string>, after: set<string>)
    requires before <= after
    ensures |k - after| <= |k - before|
  {
    SubsetCard(k - after, k - before);
  }
}
