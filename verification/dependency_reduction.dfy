/** Dependency reduction (`Linked::reduce_dependencies`): given the linked graph of one item
    kind, find which imports and exports survive the merge and, for every node, the source it
    collapses to. Sources are the locally defined items and the imports that nothing in the
    merge group satisfies; re-export chains collapse onto them. */
module DependencyReduction {
  import opened Wrappers
  import opened Kinds
  import opened MergeOptions
  import opened ResolverNodes
  import opened Collections

  /** The result of `reduce_dependencies`. */
  datatype ReducedDependencies<Kind> = ReducedDependencies(
    reductionMap: map<Node<Kind>, Node<Kind>>,
    remainingImports: set<Import<Kind>>,
    remainingExports: set<Export<Kind>>,
    clashingExports: set<ExportIdentifier<IdentifierItem<Kind>>>)

  predicate HasSuccessor<Kind>(g: Graph<Kind>, n: Node<Kind>) {
    n in g.succ
  }

  predicate HasPredecessor<Kind>(g: Graph<Kind>, n: Node<Kind>) {
    exists m | m in g.succ :: g.succ[m] == n
  }

  /** The export is listed in the kind's `keep_exports` set, when one was given. */
  predicate Kept<Kind>(keep: Option<set<ExportIdentifier<IdentifierItem<Kind>>>>, e: Export<Kind>) {
    keep.Some? && ExportIdentifier(e.owner, e.identifier) in keep.value
  }

  /** Locals, and imports with no outgoing edge. */
  predicate IsSource<Kind>(g: Graph<Kind>, n: Node<Kind>) {
    n in g.nodes && (n.LocalNode? || (n.ImportNode? && !HasSuccessor(g, n)))
  }

  /** Step 1 of `reduce_dependencies`: the set of sources. */
  function Sources<Kind>(g: Graph<Kind>): (r: set<Node<Kind>>)
    ensures forall n | n in r :: IsSource(g, n)
    ensures forall n | n in g.nodes && IsSource(g, n) :: n in r
  {
    set n | n in g.nodes && IsSource(g, n)
  }

  /** The node the search loop visits after `n`: its successor, or `n` itself when it has none
      (the loop then spins forever on `n`). */
  function Next<Kind>(g: Graph<Kind>, n: Node<Kind>): Node<Kind> {
    if n in g.succ then g.succ[n] else n
  }

  /** The node reached from `n` after `k` iterations of the search loop. */
  function Iterate<Kind>(g: Graph<Kind>, n: Node<Kind>, k: nat): Node<Kind>
    decreases k
  {
    if k == 0 then n else Iterate(g, Next(g, n), k - 1)
  }

  /** `find_reduction_source`, run for at most `fuel` steps: `None` means the loop has not
      reached a source within that many steps. */
  function FindReductionSource<Kind>(g: Graph<Kind>, sources: set<Node<Kind>>, n: Node<Kind>, fuel: nat)
    : (r: Option<Node<Kind>>)
    ensures r.Some? ==> r.value in sources
    ensures n in sources ==> r == Some(n)
    decreases fuel
  {
    if n in sources then Some(n)
    else if fuel == 0 then None
    else FindReductionSource(g, sources, Next(g, n), fuel - 1)
  }

  /** The search from every node reaches a source within as many steps as there are nodes,
      which the pigeonhole lemma below shows is the same as reaching one at all. */
  predicate AllReachSources<Kind>(g: Graph<Kind>) {
    forall n {:trigger FindReductionSource(g, Sources(g), n, |g.nodes|)} | n in g.nodes :: FindReductionSource(g, Sources(g), n, |g.nodes|).Some?
  }

  /** Some iteration of the search loop from `n` visits a source. */
  ghost predicate ReachesSource<Kind>(g: Graph<Kind>, n: Node<Kind>) {
    exists k: nat :: IsSource(g, Iterate(g, n, k))
  }

  /** `reduce_dependencies(keep_exports)`; `clashing` stands for `self.clashes()`, which is
      computed by code that is not part of this model and is passed through unchanged. */
  function ReduceDependencies<Kind>(
    g: Graph<Kind>,
    keep: Option<set<ExportIdentifier<IdentifierItem<Kind>>>>,
    clashing: set<ExportIdentifier<IdentifierItem<Kind>>>)
    : (r: ReducedDependencies<Kind>)
    requires WellFormed(g)
    requires AllReachSources(g)
    ensures r.remainingImports == RemainingImports(g)
    ensures r.remainingExports == RemainingExports(g, keep)
    ensures r.reductionMap.Keys == g.nodes
    // Every node reduces to a local or to a remaining import.
    ensures forall n | n in r.reductionMap ::
              r.reductionMap[n] in g.nodes
              && (r.reductionMap[n].LocalNode?
                  || (r.reductionMap[n].ImportNode? && r.reductionMap[n].imp in r.remainingImports))
    ensures r.clashingExports == clashing
  {
    var reduction := ReductionMap(g);
    var imports := RemainingImports(g);
    forall n | n in reduction
      ensures reduction[n].LocalNode? || (reduction[n].ImportNode? && reduction[n].imp in imports)
    {
      assert IsSource(g, reduction[n]);
    }
    ReducedDependencies(reduction, imports, RemainingExports(g, keep), clashing)
  }

  /** Step 1, imports: the imports without a successor. */
  function RemainingImports<Kind>(g: Graph<Kind>): (r: set<Import<Kind>>)
    ensures forall i | i in r :: ImportNode(i) in g.nodes && !HasSuccessor(g, ImportNode(i))
    ensures forall n | n in g.nodes && n.ImportNode? && !HasSuccessor(g, n) :: n.imp in r
  {
    set n | n in g.nodes && n.ImportNode? && !HasSuccessor(g, n) :: n.imp
  }

  /** Step 1, exports: the exports without a predecessor, and the kept ones. */
  function RemainingExports<Kind>(g: Graph<Kind>, keep: Option<set<ExportIdentifier<IdentifierItem<Kind>>>>)
    : (r: set<Export<Kind>>)
    ensures forall e | e in r :: ExportNode(e) in g.nodes && (!HasPredecessor(g, ExportNode(e)) || Kept(keep, e))
    ensures forall n | n in g.nodes && n.ExportNode? && (!HasPredecessor(g, n) || Kept(keep, n.exp)) :: n.exp in r
  {
    set n | n in g.nodes && n.ExportNode? && (!HasPredecessor(g, n) || Kept(keep, n.exp)) :: n.exp
  }

  /** Step 2: every node mapped to the source its chain reaches. */
  function ReductionMap<Kind>(g: Graph<Kind>): (r: map<Node<Kind>, Node<Kind>>)
    requires WellFormed(g)
    requires AllReachSources(g)
    ensures r.Keys == g.nodes
    ensures forall n | n in r :: IsSource(g, r[n])
    ensures forall n | n in g.nodes && IsSource(g, n) :: r[n] == n
    ensures forall n | n in g.nodes && !IsSource(g, n) :: n in g.succ && r[n] == r[g.succ[n]]
  {
    var sources := Sources(g);
    var reduction := map n | n in g.nodes :: FindReductionSource(g, sources, n, |g.nodes|).value;
    forall n | n in g.nodes && !IsSource(g, n)
      ensures n in g.succ && reduction[n] == reduction[g.succ[n]]
    {
      if n !in g.succ {
        NoSuccessorNoSource(g, n, |g.nodes|);
        assert false;
      }
      assert g.succ[n] in g.nodes;
      assert FindReductionSource(g, sources, n, |g.nodes|).Some?;
      FindMonotone(g, sources, g.succ[n], |g.nodes| - 1, |g.nodes|);
    }
    reduction
  }

  /** One step of the search loop from a node that is not a source. (An instantiation hint:
      it unfolds the search once at the point where a proof calls it.) */
  lemma FindStep<Kind>(g: Graph<Kind>, sources: set<Node<Kind>>, n: Node<Kind>, fuel: nat)
    requires n !in sources && fuel > 0
    ensures FindReductionSource(g, sources, n, fuel) == FindReductionSource(g, sources, Next(g, n), fuel - 1)
  {
  }

  /** A node that is neither a source nor has a successor never reaches a source. */
  lemma {:induction false} NoSuccessorNoSource<Kind>(g: Graph<Kind>, n: Node<Kind>, fuel: nat)
    requires !IsSource(g, n) && n !in g.succ
    ensures FindReductionSource(g, Sources(g), n, fuel).None?
    decreases fuel
  {
    if fuel > 0 {
      NoSuccessorNoSource(g, n, fuel - 1);
    }
  }

  /** More fuel never changes a search that already succeeded. */
  lemma {:induction false} FindMonotone<Kind>(g: Graph<Kind>, sources: set<Node<Kind>>, n: Node<Kind>, f1: nat, f2: nat)
    requires f1 <= f2
    requires FindReductionSource(g, sources, n, f1).Some?
    ensures FindReductionSource(g, sources, n, f2) == FindReductionSource(g, sources, n, f1)
    decreases f1
  {
    if n !in sources {
      FindMonotone(g, sources, Next(g, n), f1 - 1, f2 - 1);
    }
  }

  /** Iterating `a + b` times is iterating `a` times and then `b` times. */
  lemma {:induction false} IterateAdd<Kind>(g: Graph<Kind>, n: Node<Kind>, a: nat, b: nat)
    ensures Iterate(g, n, a + b) == Iterate(g, Iterate(g, n, a), b)
    decreases a
  {
    if a > 0 {
      IterateAdd(g, Next(g, n), a - 1, b);
    }
  }

  /** Iterating from a node of a well-formed graph stays inside the graph. */
  lemma {:induction false} IterateInGraph<Kind>(g: Graph<Kind>, n: Node<Kind>, k: nat)
    requires WellFormed(g) && n in g.nodes
    ensures Iterate(g, n, k) in g.nodes
    decreases k
  {
    if k > 0 {
      IterateInGraph(g, Next(g, n), k - 1);
    }
  }

  /** If the first `k` visited nodes are not sources, the search after `k` steps continues
      from the `k`-th node. */
  lemma {:induction false} FindSkips<Kind>(g: Graph<Kind>, n: Node<Kind>, k: nat, fuel: nat)
    requires k <= fuel
    requires forall j: nat | j < k :: !IsSource(g, Iterate(g, n, j))
    ensures FindReductionSource(g, Sources(g), n, fuel)
         == FindReductionSource(g, Sources(g), Iterate(g, n, k), fuel - k)
    decreases k
  {
    if k > 0 {
      assert !IsSource(g, Iterate(g, n, 0));
      forall j: nat | j < k - 1 ensures !IsSource(g, Iterate(g, Next(g, n), j)) {
        assert Iterate(g, n, j + 1) == Iterate(g, Next(g, n), j);
      }
      FindSkips(g, Next(g, n), k - 1, fuel - 1);
    }
  }

  /** A successful search found a node that the loop actually visits. */
  lemma {:induction false} FindVisits<Kind>(g: Graph<Kind>, n: Node<Kind>, fuel: nat)
    requires FindReductionSource(g, Sources(g), n, fuel).Some?
    ensures exists k: nat :: k <= fuel && Iterate(g, n, k) == FindReductionSource(g, Sources(g), n, fuel).value
    decreases fuel
  {
    if IsSource(g, n) {
      assert Iterate(g, n, 0) == n;
    } else {
      FindVisits(g, Next(g, n), fuel - 1);
      var k: nat :| k <= fuel - 1
        && Iterate(g, Next(g, n), k) == FindReductionSource(g, Sources(g), Next(g, n), fuel - 1).value;
      assert Iterate(g, n, k + 1) == Iterate(g, Next(g, n), k);
    }
  }

  /** The nodes visited in the first `m` iterations. */
  ghost function Visited<Kind>(g: Graph<Kind>, n: Node<Kind>, m: nat): set<Node<Kind>> {
    set j: nat | j < m :: Iterate(g, n, j)
  }

  /** One more iteration adds exactly the node it visits. (An instantiation hint for
      `VisitedSize`.) */
  lemma VisitedStep<Kind>(g: Graph<Kind>, n: Node<Kind>, m: nat)
    requires m > 0
    ensures Visited(g, n, m) == Visited(g, n, m - 1) + {Iterate(g, n, m - 1)}
  {
  }

  /** With pairwise distinct visits, the `m`-th visit is not among the earlier ones. (An
      instantiation hint for `VisitedSize`.) */
  lemma FreshVisit<Kind>(g: Graph<Kind>, n: Node<Kind>, m: nat)
    requires m > 0
    requires forall i: nat, j: nat | i < j < m :: Iterate(g, n, i) != Iterate(g, n, j)
    ensures Iterate(g, n, m - 1) !in Visited(g, n, m - 1)
  {
  }

  /** Pairwise distinct visits fill a set of exactly that many nodes. */
  lemma {:induction false} VisitedSize<Kind>(g: Graph<Kind>, n: Node<Kind>, m: nat)
    requires forall i: nat, j: nat | i < j < m :: Iterate(g, n, i) != Iterate(g, n, j)
    ensures |Visited(g, n, m)| == m
    decreases m
  {
    if m > 0 {
      VisitedSize(g, n, m - 1);
      VisitedStep(g, n, m);
      FreshVisit(g, n, m);
    }
  }

  /** Pigeonhole: a chain that reaches a source at all reaches one within as many steps as there
      are nodes, because before the first source every visited node is new. */
  lemma {:induction false} ReachesWithinNodeCount<Kind>(g: Graph<Kind>, n: Node<Kind>)
    requires WellFormed(g) && n in g.nodes
    requires ReachesSource(g, n)
    ensures FindReductionSource(g, Sources(g), n, |g.nodes|).Some?
  {
    var k: nat :| IsSource(g, Iterate(g, n, k));
    // The first visit of a source.
    var k0: nat := 0;
    while !IsSource(g, Iterate(g, n, k0))
      invariant k0 <= k
      invariant forall j: nat | j < k0 :: !IsSource(g, Iterate(g, n, j))
      decreases k - k0
    {
      k0 := k0 + 1;
    }
    // Before it, no node repeats: a repeat would make the chain periodic and bring the source earlier.
    forall i: nat, j: nat | i < j < k0 + 1 ensures Iterate(g, n, i) != Iterate(g, n, j) {
      if Iterate(g, n, i) == Iterate(g, n, j) {
        var t: nat := k0 - j;
        IterateAdd(g, n, i, t);
        IterateAdd(g, n, j, t);
        assert false;
      }
    }
    VisitedSize(g, n, k0 + 1);
    forall x | x in Visited(g, n, k0 + 1) ensures x in g.nodes {
      var j: nat :| j < k0 + 1 && x == Iterate(g, n, j);
      IterateInGraph(g, n, j);
    }
    assert Visited(g, n, k0 + 1) <= g.nodes;
    assert k0 + 1 <= |g.nodes| by {
      SubsetCardinality(Visited(g, n, k0 + 1), g.nodes);
    }
    FindSkips(g, n, k0, |g.nodes|);
  }

  /** The termination condition the model requires is exactly that every node's chain reaches
      a source; otherwise `find_reduction_source` loops forever. */
  lemma AllReachSourcesIff<Kind>(g: Graph<Kind>)
    requires WellFormed(g)
    ensures AllReachSources(g) <==> forall n | n in g.nodes :: ReachesSource(g, n)
  {
    forall n | n in g.nodes
      ensures FindReductionSource(g, Sources(g), n, |g.nodes|).Some? <==> ReachesSource(g, n)
    {
      if FindReductionSource(g, Sources(g), n, |g.nodes|).Some? {
        FindVisits(g, n, |g.nodes|);
        var k: nat :| k <= |g.nodes|
          && Iterate(g, n, k) == FindReductionSource(g, Sources(g), n, |g.nodes|).value;
        assert IsSource(g, Iterate(g, n, k));
      }
      if ReachesSource(g, n) {
        ReachesWithinNodeCount(g, n);
      }
    }
  }
}
