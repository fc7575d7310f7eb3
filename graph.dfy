/**
 * The dependency graph and the graph operations of the result model:
 * reachability (`Subtree`) and successor edges (`reverseDAG`).
 *
 * A `DAG` maps a job name to the names it depends on; a name that is not a key
 * has no outgoing edges, as a missing key of a Go map reads as a nil slice.
 */
module Graph {
  import opened StringOrder

  type DAG = map<string, seq<string>>

  /** The edges listed for `a`, or none when `a` is not a key. */
  function Out(edges: DAG, a: string): seq<string>
  {
    if a in edges then edges[a] else []
  }

  predicate Edge(edges: DAG, a: string, b: string)
  {
    a in edges && b in edges[a]
  }

  /** Every name some edge points to. */
  function Targets(edges: DAG): set<string>
  {
    set a, b | a in edges && b in edges[a] :: b
  }

  /** A walk along `edges`: consecutive names are joined by an edge. */
  ghost predicate IsPath(edges: DAG, p: seq<string>)
  {
    |p| >= 1 && forall i :: 0 <= i < |p| - 1 ==> Edge(edges, p[i], p[i + 1])
  }

  /** `b` is reachable from `a` in one or more steps. */
  ghost predicate ReachPlus(edges: DAG, a: string, b: string)
  {
    exists p :: IsPath(edges, p) && |p| >= 2 && p[0] == a && p[|p| - 1] == b
  }

  /** `b` is reachable from `a` in zero or more steps. */
  ghost predicate Reachable(edges: DAG, a: string, b: string)
  {
    a == b || ReachPlus(edges, a, b)
  }

  ghost predicate Closed(edges: DAG, s: set<string>)
  {
    forall a, b :: a in s && Edge(edges, a, b) ==> b in s
  }

  /** No job depends on itself, directly or transitively. */
  ghost predicate Acyclic(edges: DAG)
  {
    forall x :: !ReachPlus(edges, x, x)
  }

  lemma EdgeReach(edges: DAG, a: string, b: string)
    requires Edge(edges, a, b)
    ensures ReachPlus(edges, a, b)
  {
    assert IsPath(edges, [a, b]);
  }

  lemma ReachPrepend(edges: DAG, a: string, b: string, c: string)
    requires Edge(edges, a, b) && Reachable(edges, b, c)
    ensures ReachPlus(edges, a, c)
  {
    if b == c {
      EdgeReach(edges, a, b);
    } else {
      var p :| IsPath(edges, p) && |p| >= 2 && p[0] == b && p[|p| - 1] == c;
      var q := [a] + p;
      assert forall i :: 1 <= i < |q| ==> q[i] == p[i - 1];
      assert IsPath(edges, q);
    }
  }

  lemma ReachAppend(edges: DAG, a: string, b: string, c: string)
    requires ReachPlus(edges, a, b) && Edge(edges, b, c)
    ensures ReachPlus(edges, a, c)
  {
    var p :| IsPath(edges, p) && |p| >= 2 && p[0] == a && p[|p| - 1] == b;
    var q := p + [c];
    assert IsPath(edges, q);
  }

  /** A walk of one or more steps starts with an edge. */
  lemma ReachFirstStep(edges: DAG, a: string, c: string)
    requires ReachPlus(edges, a, c)
    ensures exists b :: Edge(edges, a, b) && Reachable(edges, b, c)
  {
    var p :| IsPath(edges, p) && |p| >= 2 && p[0] == a && p[|p| - 1] == c;
    assert Edge(edges, a, p[1]);
    if |p| > 2 {
      var q := p[1..];
      assert IsPath(edges, q);
      assert ReachPlus(edges, p[1], c);
    }
  }

  /** Every name reachable from a member of a closed set lies in that set. */
  lemma ClosedContainsReachable(edges: DAG, s: set<string>, a: string, b: string)
    requires Closed(edges, s) && a in s && Reachable(edges, a, b)
    ensures b in s
  {
    if a != b {
      var p :| IsPath(edges, p) && |p| >= 2 && p[0] == a && p[|p| - 1] == b;
      var i := 0;
      while i < |p| - 1
        invariant 0 <= i < |p| && p[i] in s
      {
        assert Edge(edges, p[i], p[i + 1]);
        i := i + 1;
      }
    }
  }

  /** A name reached in one or more steps is an edge target. */
  lemma ReachPlusTarget(edges: DAG, a: string, b: string)
    requires ReachPlus(edges, a, b)
    ensures b in Targets(edges) && a in edges
  {
    var p :| IsPath(edges, p) && |p| >= 2 && p[0] == a && p[|p| - 1] == b;
    assert Edge(edges, p[|p| - 2], p[|p| - 1]);
    assert Edge(edges, p[0], p[1]);
  }

  /** The names a walk from `root` can visit: the root and the edge targets. */
  function Nodes(edges: DAG, root: string): set<string>
  {
    {root} + Targets(edges)
  }

  /** Everything reachable from `root`, the root included. */
  ghost function ReachSet(edges: DAG, root: string): (s: set<string>)
    ensures forall x :: x in s <==> Reachable(edges, root, x)
  {
    var s := set x | x in Nodes(edges, root) && Reachable(edges, root, x);
    assert forall x :: Reachable(edges, root, x) ==> x in s by {
      forall x | Reachable(edges, root, x) ensures x in Nodes(edges, root) {
        if x != root { ReachPlusTarget(edges, root, x); }
      }
    }
    s
  }

  /** The value `Subtree(edges, root)` returns. */
  ghost function SubtreeSpec(edges: DAG, root: string): seq<string>
  {
    SortedSeq(ReachSet(edges, root))
  }

  /**
   * The recursive `dfs` closure of `Subtree`: `seen` and `out` are the
   * closure's shared map and slice, threaded through the calls.
   */
  method Visit(edges: DAG, ghost univ: set<string>, n: string, seen0: set<string>, out0: seq<string>)
    returns (seen: set<string>, out: seq<string>)
    requires n in univ && seen0 <= univ && Closed(edges, univ)
    requires NoDup(out0) && forall x :: x in out0 <==> x in seen0
    ensures seen0 <= seen <= univ && n in seen
    ensures NoDup(out) && forall x :: x in out <==> x in seen
    ensures forall a, b :: a in seen - seen0 && Edge(edges, a, b) ==> b in seen
    ensures forall a :: a in seen - seen0 ==> Reachable(edges, n, a)
    decreases univ - seen0
  {
    if n in seen0 {
      return seen0, out0;
    }
    seen := seen0 + {n};
    out := out0 + [n];
    var succs := Out(edges, n);
    for i := 0 to |succs|
      invariant seen0 + {n} <= seen <= univ
      invariant NoDup(out) && forall x :: x in out <==> x in seen
      invariant forall j :: 0 <= j < i ==> succs[j] in seen
      invariant forall a, b :: a in seen - seen0 && a != n && Edge(edges, a, b) ==> b in seen
      invariant forall a :: a in seen - seen0 ==> Reachable(edges, n, a)
    {
      assert Edge(edges, n, succs[i]);
      ghost var before := seen;
      seen, out := Visit(edges, univ, succs[i], seen, out);
      forall a | a in seen - before ensures Reachable(edges, n, a) {
        ReachPrepend(edges, n, succs[i], a);
      }
    }
  }

  /**
   * `Subtree(dag, root)`: the names reachable from `root` along `edges`,
   * the root included, without repeats and sorted.
   */
  method Subtree(edges: DAG, root: string) returns (out: seq<string>)
    ensures root in out
    ensures StrictlySorted(out)
    ensures forall x :: x in out <==> Reachable(edges, root, x)
    ensures forall a, b :: a in out && Edge(edges, a, b) ==> b in out
    ensures out == SubtreeSpec(edges, root)
  {
    ghost var univ := Nodes(edges, root);
    var seen, found := Visit(edges, univ, root, {}, []);
    forall x | Reachable(edges, root, x) ensures x in seen {
      ClosedContainsReachable(edges, seen, root, x);
    }
    SortListing(found, ReachSet(edges, root));
    out := SortStrings(found);
  }

  /** `rev` holds exactly the edges of `dag`, turned around. */
  ghost predicate IsReverse(dag: DAG, rev: DAG)
  {
    forall a, b :: Edge(rev, a, b) <==> Edge(dag, b, a)
  }

  /**
   * What `reverseDAG` builds: a key for every job and every named dependency,
   * and `n` listed under `d` as many times as `d` is listed under `n`.
   */
  ghost predicate Reverses(dag: DAG, rev: DAG)
  {
    && rev.Keys == dag.Keys + Targets(dag)
    && (forall d, n :: n in dag ==> multiset(Out(rev, d))[n] == multiset(dag[n])[d])
    && (forall d, n :: n in Out(rev, d) ==> n in dag)
  }

  /** `reverseDAG(dag)`: the successor edges of `dag`. */
  method ReverseDAG(dag: DAG) returns (rev: DAG)
    ensures Reverses(dag, rev)
  {
    rev := map[];
    var todo := dag.Keys;
    while todo != {}
      invariant todo <= dag.Keys
      invariant rev.Keys == dag.Keys - todo
      invariant forall d :: d in rev ==> rev[d] == []
      decreases todo
    {
      var n :| n in todo;
      rev := rev[n := []];
      todo := todo - {n};
    }
    todo := dag.Keys;
    ghost var done: set<string> := {};
    while todo != {}
      invariant todo <= dag.Keys && done == dag.Keys - todo
      invariant PartlyReversed(dag, done, rev)
      decreases todo
    {
      var n :| n in todo;
      ghost var prev := rev;
      rev := AddSuccessor(rev, n, dag[n]);
      ReverseStep(dag, done, prev, n, rev);
      done := done + {n};
      todo := todo - {n};
    }
    assert done == dag.Keys;
  }

  /** `rev` after the outer loop of `reverseDAG` has handled the jobs in `done`. */
  ghost predicate PartlyReversed(dag: DAG, done: set<string>, rev: DAG)
    requires done <= dag.Keys
  {
    && (forall d :: d in rev <==> d in dag || exists a :: a in done && Edge(dag, a, d))
    && (forall d, m :: m in dag ==> multiset(Out(rev, d))[m] == if m in done then multiset(dag[m])[d] else 0)
    && (forall d, m :: m in Out(rev, d) ==> m in done)
  }

  lemma ReverseStep(dag: DAG, done: set<string>, prev: DAG, n: string, rev: DAG)
    requires done <= dag.Keys && n in dag && n !in done
    requires PartlyReversed(dag, done, prev)
    requires forall d :: d in rev <==> d in prev || d in dag[n]
    requires forall d :: Out(rev, d) == Out(prev, d) + Copies(n, multiset(dag[n])[d])
    ensures PartlyReversed(dag, done + {n}, rev)
  {
    forall d, m | m in dag
      ensures multiset(Out(rev, d))[m] == if m in done + {n} then multiset(dag[m])[d] else 0
    {
      ReverseStepCount(dag, done, prev, n, rev, d, m);
    }
    forall d, m | m in Out(rev, d) ensures m in done + {n} {
      ReverseStepMember(prev, n, rev, multiset(dag[n])[d], d, m);
    }
    forall d ensures d in rev <==> d in dag || exists a :: a in done + {n} && Edge(dag, a, d) {
      if d in dag[n] { assert Edge(dag, n, d); }
    }
  }

  lemma ReverseStepCount(dag: DAG, done: set<string>, prev: DAG, n: string, rev: DAG, d: string, m: string)
    requires done <= dag.Keys && n in dag && n !in done && m in dag
    requires multiset(Out(prev, d))[m] == if m in done then multiset(dag[m])[d] else 0
    requires Out(rev, d) == Out(prev, d) + Copies(n, multiset(dag[n])[d])
    ensures multiset(Out(rev, d))[m] == if m in done + {n} then multiset(dag[m])[d] else 0
  {
    assert multiset(Out(rev, d)) == multiset(Out(prev, d)) + multiset(Copies(n, multiset(dag[n])[d]));
  }

  lemma ReverseStepMember(prev: DAG, n: string, rev: DAG, k: nat, d: string, m: string)
    requires Out(rev, d) == Out(prev, d) + Copies(n, k)
    requires m in Out(rev, d)
    ensures m in Out(prev, d) || m == n
  {
  }

  /** `k` copies of `n`. */
  function Copies(n: string, k: nat): (r: seq<string>)
    ensures |r| == k && forall m :: m in r ==> m == n
    ensures forall m :: multiset(r)[m] == if m == n then k else 0
  {
    if k == 0 then [] else Copies(n, k - 1) + [n]
  }

  /** The inner loop of `reverseDAG`: append `n` to the successor list of each of its dependencies. */
  method AddSuccessor(rev0: DAG, n: string, deps: seq<string>) returns (rev: DAG)
    ensures forall d :: d in rev <==> d in rev0 || d in deps
    ensures forall d :: Out(rev, d) == Out(rev0, d) + Copies(n, multiset(deps)[d])
  {
    rev := rev0;
    for i := 0 to |deps|
      invariant forall d :: d in rev <==> d in rev0 || d in deps[..i]
      invariant forall d :: Out(rev, d) == Out(rev0, d) + Copies(n, multiset(deps[..i])[d])
    {
      var dep := deps[i];
      assert deps[..i + 1] == deps[..i] + [dep];
      forall d ensures Out(rev[dep := Out(rev, dep) + [n]], d) == Out(rev0, d) + Copies(n, multiset(deps[..i + 1])[d]) {
        AppendStep(rev0, rev, n, deps, i, d);
      }
      rev := rev[dep := Out(rev, dep) + [n]];
    }
    assert deps[..|deps|] == deps;
  }

  /** One iteration of the inner loop of `reverseDAG` adds one copy of `n` under `deps[i]`, and nothing elsewhere. */
  lemma AppendStep(rev0: DAG, prev: DAG, n: string, deps: seq<string>, i: nat, d: string)
    requires i < |deps|
    requires Out(prev, d) == Out(rev0, d) + Copies(n, multiset(deps[..i])[d])
    ensures Out(prev[deps[i] := Out(prev, deps[i]) + [n]], d) == Out(rev0, d) + Copies(n, multiset(deps[..i + 1])[d])
  {
    var dep := deps[i];
    assert deps[..i + 1] == deps[..i] + [dep];
    assert multiset(deps[..i + 1]) == multiset(deps[..i]) + multiset{dep};
    if d == dep {
      AppendHere(rev0, prev, n, multiset(deps[..i])[d], d);
    } else {
      assert Out(prev[dep := Out(prev, dep) + [n]], d) == Out(prev, d);
    }
  }

  lemma AppendHere(rev0: DAG, prev: DAG, n: string, c: nat, d: string)
    requires Out(prev, d) == Out(rev0, d) + Copies(n, c)
    ensures Out(prev[d := Out(prev, d) + [n]], d) == Out(rev0, d) + Copies(n, c + 1)
  {
    assert Copies(n, c + 1) == Copies(n, c) + [n];
  }

  lemma ReversesIsReverse(dag: DAG, rev: DAG)
    requires Reverses(dag, rev)
    ensures IsReverse(dag, rev)
  {
    forall a, b ensures Edge(rev, a, b) <==> Edge(dag, b, a) {
      if Edge(rev, a, b) {
        assert b in Out(rev, a);
        assert multiset(Out(rev, a))[b] > 0;
      }
      if Edge(dag, b, a) {
        assert multiset(dag[b])[a] > 0;
        assert a in Targets(dag);
      }
    }
  }

  /** A walk along the reversed edges, read backwards, is a walk along the original ones. */
  lemma ReversePath(dag: DAG, rev: DAG, a: string, b: string)
    requires IsReverse(dag, rev) && ReachPlus(rev, a, b)
    ensures ReachPlus(dag, b, a)
  {
    var p :| IsPath(rev, p) && |p| >= 2 && p[0] == a && p[|p| - 1] == b;
    var q := seq(|p|, i requires 0 <= i < |p| => p[|p| - 1 - i]);
    forall i | 0 <= i < |q| - 1 ensures Edge(dag, q[i], q[i + 1]) {
      var k := |p| - 2 - i;
      assert Edge(rev, p[k], p[k + 1]);
    }
    assert IsPath(dag, q);
  }

  lemma ReachReverse(dag: DAG, rev: DAG, a: string, b: string)
    requires IsReverse(dag, rev)
    ensures ReachPlus(rev, a, b) <==> ReachPlus(dag, b, a)
  {
    if ReachPlus(rev, a, b) {
      ReversePath(dag, rev, a, b);
    }
    if ReachPlus(dag, b, a) {
      ReversePath(rev, dag, b, a);
    }
  }

  lemma AcyclicReverse(dag: DAG, rev: DAG)
    requires IsReverse(dag, rev)
    ensures Acyclic(dag) <==> Acyclic(rev)
  {
    forall x ensures ReachPlus(rev, x, x) <==> ReachPlus(dag, x, x) {
      ReachReverse(dag, rev, x, x);
    }
  }

  /** The jobs that depend on `j`, directly or transitively, and `j` itself. */
  ghost function Downstream(dag: DAG, j: string): (s: set<string>)
    ensures forall x :: x in s <==> Reachable(dag, x, j)
  {
    var s := set x | x in {j} + dag.Keys && Reachable(dag, x, j);
    assert forall x :: Reachable(dag, x, j) ==> x in s by {
      forall x | Reachable(dag, x, j) && x != j ensures x in dag {
        ReachPlusTarget(dag, x, j);
      }
    }
    s
  }

  /** A subtree over the reversed edges is the set of downstream jobs, whatever order the successors are listed in. */
  lemma SubtreeOfReverse(dag: DAG, rev: DAG, j: string)
    requires IsReverse(dag, rev)
    ensures ReachSet(rev, j) == Downstream(dag, j)
    ensures SubtreeSpec(rev, j) == SortedSeq(Downstream(dag, j))
  {
    forall x ensures x in ReachSet(rev, j) <==> x in Downstream(dag, j) {
      ReachReverse(dag, rev, j, x);
    }
  }
}
