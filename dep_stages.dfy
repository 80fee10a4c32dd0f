/**
 * `count_min_stages`: tables are placed, in topological order, into the
 * earliest pipeline stage their dependencies allow. A table must come no
 * earlier than any table it has a reverse-read or successor dependency on,
 * and strictly later than any table it has an action or match dependency
 * on. Each stage remembers, per dependent table, the strongest dependency
 * that table has on the stage's members.
 *
 * The placement argument is stated over a strength function `w`, where
 * `w(u, x)` is the strongest dependency of `x` on `u` (0 for none), as
 * `IsStrength` ties it to a graph's edge lists.
 */
module DepStages {
  import opened Digraphs
  import opened DepTypes

  type Strengths = (string, string) -> int

  function Max(a: int, b: int): int
  {
    if a >= b then a else b
  }

  /** How many stages a dependency of code `c` pushes the dependent table later: one for action and match, none otherwise. */
  function Step(c: int): (r: int)
    ensures r == 0 || r == 1
    ensures r == 1 <==> c >= ACTION
  {
    if c >= ACTION then 1 else 0
  }

  /** The strongest positive code among the edges of `es` leading to `x`, 0 if there is none. */
  function MaxCode(es: seq<(string, Edge)>, x: string): (r: int)
    ensures r >= 0
  {
    if es == [] then 0
    else
      var last := es[|es| - 1];
      Max(if last.0 == x then last.1.code else 0, MaxCode(es[..|es| - 1], x))
  }

  /** Only an edge's target can be depended on. */
  lemma {:induction false} MaxCodeTarget(es: seq<(string, Edge)>, x: string)
    requires MaxCode(es, x) > 0
    ensures x in EdgeTargets(es)
  {
    var last := es[|es| - 1];
    if last.0 != x || last.1.code < MaxCode(es[..|es| - 1], x) {
      MaxCodeTarget(es[..|es| - 1], x);
      var j :| 0 <= j < |es| - 1 && EdgeTargets(es[..|es| - 1])[j] == x;
      assert EdgeTargets(es)[j] == x;
    } else {
      assert EdgeTargets(es)[|es| - 1] == x;
    }
  }

  /** Every positive edge to `x` is accounted for. */
  lemma {:induction false} MaxCodeAtLeast(es: seq<(string, Edge)>, j: int)
    requires 0 <= j < |es|
    ensures MaxCode(es, es[j].0) >= es[j].1.code
  {
    if j < |es| - 1 {
      MaxCodeAtLeast(es[..|es| - 1], j);
    }
  }

  /** `w` gives, for every table `u` of the graph, the strongest edge from `u` to `x`. */
  ghost predicate IsStrength(em: EdgeLists, w: Strengths)
  {
    forall u, x {:trigger MaxCode(em[u], x)} :: u in em ==> MaxCode(em[u], x) == w(u, x)
  }

  /** `w` only relates tables joined by an edge of `adj`. */
  ghost predicate Carried(w: Strengths, adj: Adj)
  {
    forall u, x :: w(u, x) > 0 ==> u in adj && x in adj[u]
  }

  /** Every graph has its strength function, and it follows the graph's edges. */
  lemma StrengthExists(em: EdgeLists)
    ensures exists w :: IsStrength(em, w) && Carried(w, AdjOf(em))
  {
    var w: Strengths := (u: string, x: string) => if u in em then MaxCode(em[u], x) else 0;
    forall u, x | w(u, x) > 0
      ensures u in AdjOf(em) && x in AdjOf(em)[u]
    {
      MaxCodeTarget(em[u], x);
    }
    assert IsStrength(em, w);
  }

  /** `stage_dependencies[x]` of a `defaultdict(int)`: 0 for a table not recorded. */
  function Lookup(sd: map<string, int>, x: string): int
  {
    if x in sd then sd[x] else 0
  }

  /**
   * The entries of a stage, as `stage_dependencies` records them: a table
   * is recorded exactly when it depends on some member, and its entry is
   * the strongest such dependency.
   */
  ghost predicate DepsOf(w: Strengths, stage: set<string>, sd: map<string, int>)
  {
    && (forall u, x :: u in stage && w(u, x) > 0 ==> x in sd && w(u, x) <= sd[x])
    && (forall x :: x in sd ==> sd[x] > 0 && exists u :: u in stage && w(u, x) == sd[x])
  }

  /**
   * The edge loop of `count_min_stages`: each positive edge raises its
   * target's entry to its code. Reading a missing entry of the
   * `defaultdict` stores 0 first, which the raise then overwrites.
   */
  method RecordDeps(es: seq<(string, Edge)>, sd: map<string, int>) returns (out: map<string, int>)
    requires forall x :: x in sd ==> sd[x] > 0
    ensures forall x :: x in out ==> out[x] > 0
    ensures forall x :: x in out <==> x in sd || MaxCode(es, x) > 0
    ensures forall x :: x in out ==> out[x] == Max(Lookup(sd, x), MaxCode(es, x))
  {
    out := sd;
    for i := 0 to |es|
      invariant forall x :: x in out <==> x in sd || MaxCode(es[..i], x) > 0
      invariant forall x :: x in out ==> out[x] == Max(Lookup(sd, x), MaxCode(es[..i], x))
    {
      assert es[..i + 1][..i] == es[..i];
      var (nodeTo, edge) := es[i];
      var type_ := edge.code;
      if type_ > 0 {
        if nodeTo !in out {
          out := out[nodeTo := 0];
        }
        if type_ > out[nodeTo] {
          out := out[nodeTo := type_];
        }
      }
    }
    assert es[..|es|] == es;
  }

  /** Adding a table to a stage and recording its dependents keeps the stage's entries exact. */
  lemma DepsOfAdd(w: Strengths, stage: set<string>, sd: map<string, int>, v: string, out: map<string, int>)
    requires DepsOf(w, stage, sd)
    requires forall x :: x in out <==> x in sd || w(v, x) > 0
    requires forall x :: x in out ==> out[x] == Max(Lookup(sd, x), w(v, x))
    ensures DepsOf(w, stage + {v}, out)
  {
    var stage' := stage + {v};
    forall x | x in out
      ensures out[x] > 0 && exists u :: u in stage' && w(u, x) == out[x]
    {
      if x in sd && sd[x] >= w(v, x) {
        var u :| u in stage && w(u, x) == sd[x];
        assert u in stage';
      } else {
        assert v in stage';
      }
    }
    forall u, x | u in stage' && w(u, x) > 0
      ensures x in out && w(u, x) <= out[x]
    {
      if u != v {
        assert u in stage;
      }
    }
  }

  /** A stage assignment that puts every table at least where its dependencies require. */
  ghost predicate Respects(w: Strengths, f: map<string, int>)
  {
    && (forall v :: v in f ==> f[v] >= 0)
    && (forall u, v :: u in f && v in f && w(u, v) > 0 ==> f[v] >= f[u] + Step(w(u, v)))
  }

  /** Table `v` sits at stage 0, or exactly where one of its dependencies forces it. */
  ghost predicate TightAt(w: Strengths, f: map<string, int>, v: string)
    requires v in f
  {
    f[v] == 0 || exists u :: u in f && w(u, v) > 0 && f[v] == f[u] + Step(w(u, v))
  }

  /** Each placed table is tight. */
  ghost predicate Tight(w: Strengths, f: map<string, int>)
  {
    forall v {:trigger TightAt(w, f, v)} :: v in f ==> TightAt(w, f, v)
  }

  /** `stage_list` holds the tables of `stageOf`, stage by stage, none empty. */
  ghost predicate Partition(stageList: seq<set<string>>, stageOf: map<string, int>)
  {
    && (forall x :: x in stageOf ==> 0 <= stageOf[x] < |stageList|)
    && (forall j, x :: 0 <= j < |stageList| && x in stageList[j] ==> x in stageOf && stageOf[x] == j)
    && (forall x :: x in stageOf ==> x in stageList[stageOf[x]])
    && (forall j :: 0 <= j < |stageList| ==> stageList[j] != {})
  }

  ghost predicate AllDeps(w: Strengths, stageList: seq<set<string>>, stageDeps: seq<map<string, int>>)
  {
    |stageDeps| == |stageList| && forall j :: 0 <= j < |stageList| ==> DepsOf(w, stageList[j], stageDeps[j])
  }

  /**
   * A tight assignment along a topological order is the least one: it puts
   * no table later than any assignment that respects the dependencies.
   */
  lemma {:induction false} TightIsLeast(w: Strengths, adj: Adj, s: seq<string>, g: map<string, int>, f: map<string, int>, k: int)
    requires Carried(w, adj) && IsTopological(adj, s) && g.Keys == Elems(s) && Elems(s) <= f.Keys
    requires Tight(w, g) && Respects(w, f) && 0 <= k < |s|
    ensures g[s[k]] <= f[s[k]]
    decreases k
  {
    var v := s[k];
    assert TightAt(w, g, v);
    if g[v] > 0 {
      var u :| u in g && w(u, v) > 0 && g[v] == g[u] + Step(w(u, v));
      var ku :| 0 <= ku < |s| && s[ku] == u;
      assert ku < k;
      TightIsLeast(w, adj, s, g, f, ku);
    }
  }

  /**
   * The search loop of `count_min_stages`: the latest stage whose entries
   * mention `table`, and the strength recorded there; -1 and 0 when none
   * does. Recorded strengths are positive, as the source asserts.
   */
  method FindStage(table: string, stageDeps: seq<map<string, int>>) returns (i: int, d: int)
    requires forall j, x :: 0 <= j < |stageDeps| && x in stageDeps[j] ==> stageDeps[j][x] > 0
    ensures -1 <= i < |stageDeps|
    ensures forall j :: i < j < |stageDeps| ==> table !in stageDeps[j]
    ensures i == -1 ==> d == 0
    ensures i >= 0 ==> table in stageDeps[i] && d == stageDeps[i][table] && d > 0
  {
    d := 0;
    i := |stageDeps| - 1;
    while i >= 0
      invariant -1 <= i < |stageDeps| && d == 0
      invariant forall j :: i < j < |stageDeps| ==> table !in stageDeps[j]
    {
      if table in stageDeps[i] {
        d := stageDeps[i][table];
        assert d > 0;
        break;
      }
      i := i - 1;
    }
  }

  /** No table listed in a topological order depends on a table listed no earlier. */
  lemma NoBackDep(w: Strengths, adj: Adj, s: seq<string>, a: int, b: int)
    requires Carried(w, adj) && IsTopological(adj, s) && 0 <= a <= b < |s|
    ensures w(s[b], s[a]) <= 0
  {
  }

  /**
   * The state of `count_min_stages` after the first `k` tables of `s`:
   * they are spread over the stages as `stageOf` says, each stage's entries
   * are exact, and the placement respects every dependency and is tight.
   */
  ghost predicate Placed(w: Strengths, s: seq<string>, k: int, stageList: seq<set<string>>,
                         stageDeps: seq<map<string, int>>, stageOf: map<string, int>)
  {
    && 0 <= k <= |s| && |stageList| <= k
    && stageOf.Keys == Elems(s[..k])
    && Partition(stageList, stageOf)
    && AllDeps(w, stageList, stageDeps)
    && Respects(w, stageOf) && Tight(w, stageOf)
  }

  /**
   * Where the search leaves the next table `v`: at least as late as each of
   * its dependencies on placed tables requires, and, past stage 0, exactly
   * where one of them requires.
   */
  lemma FoundStageBounds(w: Strengths, stageList: seq<set<string>>, stageDeps: seq<map<string, int>>,
                         stageOf: map<string, int>, v: string, i0: int, d: int, i: int)
    requires Partition(stageList, stageOf) && AllDeps(w, stageList, stageDeps)
    requires -1 <= i0 < |stageDeps| && forall j :: i0 < j < |stageDeps| ==> v !in stageDeps[j]
    requires i0 == -1 ==> d == 0
    requires i0 >= 0 ==> v in stageDeps[i0] && d == stageDeps[i0][v] && d > 0
    requires i == if d == 0 || d >= ACTION then i0 + 1 else i0
    ensures 0 <= i <= |stageList|
    ensures forall u :: u in stageOf && w(u, v) > 0 ==> i >= stageOf[u] + Step(w(u, v))
    ensures i > 0 ==> exists u :: u in stageOf && w(u, v) > 0 && i == stageOf[u] + Step(w(u, v))
  {
    forall u | u in stageOf && w(u, v) > 0
      ensures i >= stageOf[u] + Step(w(u, v))
    {
      var j := stageOf[u];
      assert u in stageList[j] && DepsOf(w, stageList[j], stageDeps[j]);
      assert v in stageDeps[j] && w(u, v) <= stageDeps[j][v];
    }
    if i > 0 {
      assert DepsOf(w, stageList[i0], stageDeps[i0]);
      var u :| u in stageList[i0] && w(u, v) == d;
      assert stageOf[u] == i0;
    }
  }

  /** Placing `v` at stage `i` keeps the placement respectful and tight. */
  lemma PlaceOrder(w: Strengths, stageOf: map<string, int>, v: string, i: int)
    requires Respects(w, stageOf) && Tight(w, stageOf) && v !in stageOf && i >= 0
    requires forall u :: u in stageOf && w(u, v) > 0 ==> i >= stageOf[u] + Step(w(u, v))
    requires i > 0 ==> exists u :: u in stageOf && w(u, v) > 0 && i == stageOf[u] + Step(w(u, v))
    requires forall x :: x in stageOf ==> w(v, x) <= 0
    requires w(v, v) <= 0
    ensures Respects(w, stageOf[v := i]) && Tight(w, stageOf[v := i])
  {
    var g := stageOf[v := i];
    forall x | x in g
      ensures TightAt(w, g, x)
    {
      if x != v {
        assert TightAt(w, stageOf, x);
        if stageOf[x] > 0 {
          var u :| u in stageOf && w(u, x) > 0 && stageOf[x] == stageOf[u] + Step(w(u, x));
          assert u in g && g[u] == stageOf[u];
        }
      } else if i > 0 {
        var u :| u in stageOf && w(u, v) > 0 && i == stageOf[u] + Step(w(u, v));
        assert u in g && g[u] == stageOf[u];
      }
    }
  }

  /** Adding `v` to stage `i`, which may be a new last stage, keeps `stage_list` a partition. */
  lemma PlacePartition(stageList: seq<set<string>>, stageOf: map<string, int>, v: string, i: int)
    requires Partition(stageList, stageOf) && v !in stageOf && 0 <= i <= |stageList|
    ensures var grown := if i == |stageList| then stageList + [{}] else stageList;
            Partition(grown[i := grown[i] + {v}], stageOf[v := i])
  {
  }

  /** Adding `v` to stage `i`, which may be a new last stage, and recording its dependents there keeps every stage's entries exact. */
  lemma PlaceDeps(w: Strengths, stageList: seq<set<string>>, stageDeps: seq<map<string, int>>, v: string, i: int, sd: map<string, int>)
    requires AllDeps(w, stageList, stageDeps) && 0 <= i <= |stageList|
    requires var old_ := if i == |stageList| then map[] else stageDeps[i];
             && (forall x :: x in sd <==> x in old_ || w(v, x) > 0)
             && (forall x :: x in sd ==> sd[x] == Max(Lookup(old_, x), w(v, x)))
    ensures var grownList := if i == |stageList| then stageList + [{}] else stageList;
            var grownDeps := if i == |stageList| then stageDeps + [map[]] else stageDeps;
            AllDeps(w, grownList[i := grownList[i] + {v}], grownDeps[i := sd])
  {
    var grownList := if i == |stageList| then stageList + [{}] else stageList;
    var grownDeps := if i == |stageList| then stageDeps + [map[]] else stageDeps;
    assert DepsOf(w, grownList[i], grownDeps[i]);
    DepsOfAdd(w, grownList[i], grownDeps[i], v, sd);
  }

  /** The placed tables grow by the next one in the order. */
  lemma PlaceKeys(s: seq<string>, k: int, stageOf: map<string, int>, i: int)
    requires NoDup(s) && 0 <= k < |s| && stageOf.Keys == Elems(s[..k])
    ensures s[k] !in stageOf && stageOf[s[k] := i].Keys == Elems(s[..k + 1])
  {
    assert s[..k + 1] == s[..k] + [s[k]];
  }

  /** One round of the placement loop keeps its state: `s[k]` joins stage `i`, opened if new, and its dependents are recorded there. */
  lemma PlaceStep(w: Strengths, adj: Adj, s: seq<string>, k: int, stageList: seq<set<string>>, stageDeps: seq<map<string, int>>,
                  stageOf: map<string, int>, found: int, d: int, i: int, sd: map<string, int>,
                  newList: seq<set<string>>, newDeps: seq<map<string, int>>)
    requires Carried(w, adj) && IsTopological(adj, s) && NoDup(s)
    requires Placed(w, s, k, stageList, stageDeps, stageOf) && k < |s|
    requires -1 <= found < |stageDeps| && forall j :: found < j < |stageDeps| ==> s[k] !in stageDeps[j]
    requires found == -1 ==> d == 0
    requires found >= 0 ==> s[k] in stageDeps[found] && d == stageDeps[found][s[k]] && d > 0
    requires i == if d == 0 || d >= ACTION then found + 1 else found
    requires var old_ := if i == |stageList| then map[] else stageDeps[i];
             && (forall x :: x in sd <==> x in old_ || w(s[k], x) > 0)
             && (forall x :: x in sd ==> sd[x] == Max(Lookup(old_, x), w(s[k], x)))
    requires var grownList := if i == |stageList| then stageList + [{}] else stageList;
             var grownDeps := if i == |stageList| then stageDeps + [map[]] else stageDeps;
             newList == grownList[i := grownList[i] + {s[k]}] && newDeps == grownDeps[i := sd]
    ensures Placed(w, s, k + 1, newList, newDeps, stageOf[s[k] := i])
  {
    var table := s[k];
    PlaceKeys(s, k, stageOf, i);
    forall x | x in stageOf
      ensures w(table, x) <= 0
    {
      var j :| 0 <= j < k && s[..k][j] == x;
      NoBackDep(w, adj, s, j, k);
    }
    NoBackDep(w, adj, s, k, k);
    FoundStageBounds(w, stageList, stageDeps, stageOf, table, found, d, i);
    PlaceOrder(w, stageOf, table, i);
    PlacePartition(stageList, stageOf, table, i);
    PlaceDeps(w, stageList, stageDeps, table, i, sd);
  }

  /** Once every table is placed, each lies in exactly one stage. */
  lemma PlacedCover(em: EdgeLists, stageList: seq<set<string>>, stageOf: map<string, int>)
    requires Partition(stageList, stageOf) && stageOf.Keys == em.Keys
    ensures forall x :: x in em <==> exists j :: 0 <= j < |stageList| && x in stageList[j]
    ensures forall j1, j2, x :: 0 <= j1 < |stageList| && 0 <= j2 < |stageList| && x in stageList[j1] && x in stageList[j2] ==> j1 == j2
  {
    forall x | x in em
      ensures exists j :: 0 <= j < |stageList| && x in stageList[j]
    {
      assert x in stageList[stageOf[x]];
    }
    forall j1, j2, x | 0 <= j1 < |stageList| && 0 <= j2 < |stageList| && x in stageList[j1] && x in stageList[j2]
      ensures j1 == j2
    {
      assert stageOf[x] == j1 && stageOf[x] == j2;
    }
  }

  /** Once every table is placed, the stages respect every dependency between them. */
  lemma PlacedOrder(w: Strengths, stageList: seq<set<string>>, stageOf: map<string, int>)
    requires Partition(stageList, stageOf) && Respects(w, stageOf)
    ensures forall a, b, u, v :: 0 <= a < |stageList| && 0 <= b < |stageList| && u in stageList[a] && v in stageList[b] && w(u, v) > 0 ==>
              b >= a + Step(w(u, v))
  {
    forall a, b, u, v | 0 <= a < |stageList| && 0 <= b < |stageList| && u in stageList[a] && v in stageList[b] && w(u, v) > 0
      ensures b >= a + Step(w(u, v))
    {
      assert stageOf[u] == a && stageOf[v] == b;
    }
  }

  /** Once every table of `s` is placed tightly, any assignment that respects the dependencies reaches the last stage. */
  lemma PlacedLeast(w: Strengths, adj: Adj, s: seq<string>, stageList: seq<set<string>>, stageOf: map<string, int>)
    requires Carried(w, adj) && IsTopological(adj, s) && stageOf.Keys == Elems(s)
    requires Partition(stageList, stageOf) && Tight(w, stageOf)
    ensures forall f: map<string, int> :: Elems(s) <= f.Keys && Respects(w, f) && |stageList| > 0 ==>
              exists v :: v in Elems(s) && f[v] >= |stageList| - 1
  {
    forall f: map<string, int> | Elems(s) <= f.Keys && Respects(w, f) && |stageList| > 0
      ensures exists v :: v in Elems(s) && f[v] >= |stageList| - 1
    {
      var last := |stageList| - 1;
      var v :| v in stageList[last];
      assert v in stageOf && stageOf[v] == last;
      var kv :| 0 <= kv < |s| && s[kv] == v;
      TightIsLeast(w, adj, s, stageOf, f, kv);
    }
  }

  /**
   * One round of the placement loop of `count_min_stages`: table `s[k]`
   * goes to the latest stage whose entries record it, one stage further
   * when that dependency is an action or match one, and to stage 0 when no
   * stage records it; a stage past the last is opened when needed, and the
   * table's own edges are then recorded in its stage.
   */
  method PlaceTable(em: EdgeLists, s: seq<string>, k: int, stageList: seq<set<string>>, stageDeps: seq<map<string, int>>,
                    ghost stageOf: map<string, int>, ghost w: Strengths, ghost adj: Adj)
    returns (newList: seq<set<string>>, newDeps: seq<map<string, int>>, i: int)
    requires Carried(w, adj) && IsTopological(adj, s) && NoDup(s) && Elems(s) == em.Keys
    requires IsStrength(em, w)
    requires Placed(w, s, k, stageList, stageDeps, stageOf) && k < |s|
    ensures Placed(w, s, k + 1, newList, newDeps, stageOf[s[k] := i])
    ensures |newList| > 0
    ensures (forall j :: 0 <= j < |stageDeps| ==> s[k] !in stageDeps[j]) ==> i == 0
  {
    var table := s[k];
    var d;
    i, d := FindStage(table, stageDeps);
    ghost var found := i;
    if d == 0 {
      i := i + 1;
    } else if d >= ACTION {
      i := i + 1;
    }
    FoundStageBounds(w, stageList, stageDeps, stageOf, table, found, d, i);
    newList, newDeps := stageList, stageDeps;
    if i == |newList| {
      newList := newList + [{}];
      newDeps := newDeps + [map[]];
    }
    newList := newList[i := newList[i] + {table}];
    var sd := RecordDeps(em[table], newDeps[i]);
    newDeps := newDeps[i := sd];
    PlaceStep(w, adj, s, k, stageList, stageDeps, stageOf, found, d, i, sd, newList, newDeps);
  }

  /**
   * The placement loop of `count_min_stages` over a topological order `s`
   * of all tables, one table per round. The stages partition the tables,
   * and the placement respects every dependency and is tight, so that no
   * assignment that respects them uses fewer stages.
   */
  method PlaceTables(em: EdgeLists, s: seq<string>, ghost w: Strengths, ghost adj: Adj)
    returns (nbStages: int, stageList: seq<set<string>>, ghost stageOf: map<string, int>)
    requires Carried(w, adj) && IsTopological(adj, s) && NoDup(s) && Elems(s) == em.Keys
    requires IsStrength(em, w)
    ensures nbStages == |stageList| && nbStages <= |s| && (nbStages == 0 <==> s == [])
    ensures stageOf.Keys == em.Keys && Partition(stageList, stageOf)
    ensures Respects(w, stageOf) && Tight(w, stageOf)
  {
    nbStages := 0;
    stageList := [];
    var stageDeps: seq<map<string, int>> := [];
    stageOf := map[];
    for k := 0 to |s|
      invariant nbStages == |stageList|
      invariant Placed(w, s, k, stageList, stageDeps, stageOf)
      invariant k > 0 ==> nbStages > 0
    {
      var i;
      stageList, stageDeps, i := PlaceTable(em, s, k, stageList, stageDeps, stageOf, w, adj);
      nbStages := |stageList|;
      stageOf := stageOf[s[k] := i];
    }
    assert s[..|s|] == s;
  }

  /**
   * A finished placement, read back on the edge lists: every table lies in
   * exactly one stage, and the stages respect every edge's code.
   */
  lemma PlacementStages(em: EdgeLists, w: Strengths, stageList: seq<set<string>>, stageOf: map<string, int>)
    requires IsStrength(em, w)
    requires stageOf.Keys == em.Keys && Partition(stageList, stageOf) && Respects(w, stageOf)
    ensures forall x :: x in em <==> exists j :: 0 <= j < |stageList| && x in stageList[j]
    ensures forall j1, j2, x :: 0 <= j1 < |stageList| && 0 <= j2 < |stageList| && x in stageList[j1] && x in stageList[j2] ==> j1 == j2
    ensures forall a, b, u, v :: 0 <= a < |stageList| && 0 <= b < |stageList| && u in stageList[a] && v in stageList[b] && MaxCode(em[u], v) > 0 ==>
              b >= a + Step(MaxCode(em[u], v))
  {
    PlacedCover(em, stageList, stageOf);
    PlacedOrder(w, stageList, stageOf);
    forall a, b, u, v | 0 <= a < |stageList| && 0 <= b < |stageList| && u in stageList[a] && v in stageList[b] && MaxCode(em[u], v) > 0
      ensures b >= a + Step(MaxCode(em[u], v))
    {
      assert w(u, v) == MaxCode(em[u], v);
    }
  }

  /** A stage assignment that puts every table at least where the codes of its incoming edges require. */
  ghost predicate RespectsCodes(em: EdgeLists, f: map<string, int>)
  {
    && (forall v :: v in f ==> f[v] >= 0)
    && (forall u, v :: u in f && v in f && u in em && MaxCode(em[u], v) > 0 ==> f[v] >= f[u] + Step(MaxCode(em[u], v)))
  }

  /** A finished tight placement, read back on the edge lists: no assignment that respects the edges' codes uses fewer stages. */
  lemma PlacementLeast(em: EdgeLists, w: Strengths, s: seq<string>, stageList: seq<set<string>>, stageOf: map<string, int>)
    requires IsStrength(em, w) && Carried(w, AdjOf(em)) && IsTopological(AdjOf(em), s) && Elems(s) == em.Keys
    requires stageOf.Keys == em.Keys && Partition(stageList, stageOf) && Tight(w, stageOf)
    ensures forall f: map<string, int> :: em.Keys <= f.Keys && RespectsCodes(em, f) && |stageList| > 0 ==>
              exists v :: v in em && f[v] >= |stageList| - 1
  {
    PlacedLeast(w, AdjOf(em), s, stageList, stageOf);
    forall f: map<string, int> | em.Keys <= f.Keys && RespectsCodes(em, f)
      ensures Respects(w, f)
    {
      forall u, v | u in f && v in f && w(u, v) > 0
        ensures f[v] >= f[u] + Step(w(u, v))
      {
        assert u in em && MaxCode(em[u], v) == w(u, v);
      }
    }
  }

  /**
   * What `count_min_stages` computes for a graph with edge lists `em`:
   * `nbStages` stages, none of them empty, holding every table exactly
   * once; each edge's code is respected (a reverse-read or successor
   * dependency never goes to an earlier stage, an action or match one
   * always to a later one); and no assignment that respects the codes uses
   * fewer stages. There are no stages exactly when there are no tables,
   * and never more stages than tables.
   */
  ghost predicate MinStages(em: EdgeLists, nbStages: int, stageList: seq<set<string>>)
  {
    && nbStages == |stageList| && nbStages <= |em| && (nbStages == 0 <==> em.Keys == {})
    && (forall x :: x in em <==> exists j :: 0 <= j < nbStages && x in stageList[j])
    && (forall j1, j2, x :: 0 <= j1 < nbStages && 0 <= j2 < nbStages && x in stageList[j1] && x in stageList[j2] ==> j1 == j2)
    && (forall j :: 0 <= j < nbStages ==> stageList[j] != {})
    && (forall a, b, u, v :: 0 <= a < nbStages && 0 <= b < nbStages && u in stageList[a] && v in stageList[b] && MaxCode(em[u], v) > 0 ==>
          b >= a + Step(MaxCode(em[u], v)))
    && (forall f: map<string, int> :: em.Keys <= f.Keys && RespectsCodes(em, f) && nbStages > 0 ==>
          exists v :: v in em && f[v] >= nbStages - 1)
  }

  /** A finished placement of a topological order of all tables is a least stage assignment. */
  lemma PlacementMinStages(em: EdgeLists, w: Strengths, s: seq<string>, nbStages: int, stageList: seq<set<string>>, stageOf: map<string, int>)
    requires IsStrength(em, w) && Carried(w, AdjOf(em)) && IsTopological(AdjOf(em), s) && Elems(s) == em.Keys
    requires NoDup(s) && nbStages == |stageList| && nbStages <= |s| && (nbStages == 0 <==> s == [])
    requires stageOf.Keys == em.Keys && Partition(stageList, stageOf)
    requires Respects(w, stageOf) && Tight(w, stageOf)
    ensures MinStages(em, nbStages, stageList)
  {
    PlacementStages(em, w, stageList, stageOf);
    PlacementLeast(em, w, s, stageList, stageOf);
    NoDupCard(s);
    if s != [] {
      assert s[0] in em;
    }
  }

  /**
   * `count_min_stages` past its cycle check, on the edge lists of a graph
   * and a topological order of all its tables: every table ends up in
   * exactly one stage, no stage is empty, every edge's code is respected,
   * and no assignment that respects them uses fewer stages.
   */
  method AssignStages(em: EdgeLists, s: seq<string>) returns (nbStages: int, stageList: seq<set<string>>)
    requires IsTopological(AdjOf(em), s) && NoDup(s) && Elems(s) == em.Keys
    ensures MinStages(em, nbStages, stageList)
  {
    StrengthExists(em);
    ghost var w: Strengths :| IsStrength(em, w) && Carried(w, AdjOf(em));
    ghost var stageOf;
    nbStages, stageList, stageOf := PlaceTables(em, s, w, AdjOf(em));
    PlacementMinStages(em, w, s, nbStages, stageList, stageOf);
  }
}
