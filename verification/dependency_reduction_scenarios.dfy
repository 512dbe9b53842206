/** The three graphs of the unit tests of `reduce_dependencies` that pin down whole reduction
    maps, each linked as `link_nodes` links them: an import points to the export with the same
    exporting module and name, an export points to the item at its index in its own module.
    The lemmas derive the tests' expectations from the contract of `ReduceDependencies`. */
module DependencyReductionScenarios {
  import opened Wrappers
  import opened Kinds
  import opened MergeOptions
  import opened ResolverNodes
  import opened DependencyReduction

  /** The tests give every node the same (unit) type. */
  const TestType: ItemType := FuncTy(FuncType([], []))

  function Imp(exporting: string, importing: string, name: string, index: nat): Node<Function> {
    ImportNode(Import(IdentifierModule(exporting), IdentifierModule(importing), IdentifierItem(name), index, TestType))
  }

  function Loc(m: string, index: nat): Node<Function> {
    LocalNode(Local(IdentifierModule(m), index, TestType, []))
  }

  function Exp(m: string, name: string, index: nat): Node<Function> {
    ExportNode(Export(IdentifierModule(m), IdentifierItem(name), index, TestType))
  }

  // test_chain_of_imports: FOREIGN -> A -> B -> C, re-exported at every step.
  const ImportForeign := Imp("FOREIGN", "A", "foreign", 0)
  const ExportA := Exp("A", "a", 0)
  const ImportA := Imp("A", "B", "a", 1)
  const ExportB := Exp("B", "b", 1)
  const ImportB := Imp("B", "C", "b", 2)
  const ExportForeign := Exp("C", "c", 2)

  function ChainOfImports(): Graph<Function> {
    Graph({ImportForeign, ExportA, ImportA, ExportB, ImportB, ExportForeign},
          map[ExportA := ImportForeign, ImportA := ExportA, ExportB := ImportA,
              ImportB := ExportB, ExportForeign := ImportB])
  }

  /** Every node of the chain reaches the foreign import. */
  lemma ChainOfImportsTerminates()
    ensures WellFormed(ChainOfImports()) && AllReachSources(ChainOfImports())
  {
    var g := ChainOfImports();
    var s := Sources(g);
    assert IsSource(g, ImportForeign) && ImportForeign in s;
    assert ExportA !in s && ImportA !in s && ExportB !in s && ImportB !in s && ExportForeign !in s;
    var f := |g.nodes|;
    assert f == 6;
    FindStep(g, s, ExportA, f);
    FindStep(g, s, ImportA, f);
    FindStep(g, s, ImportA, f - 1);
    FindStep(g, s, ExportB, f);
    FindStep(g, s, ExportB, f - 1);
    FindStep(g, s, ExportB, f - 2);
    FindStep(g, s, ImportB, f);
    FindStep(g, s, ImportB, f - 1);
    FindStep(g, s, ImportB, f - 2);
    FindStep(g, s, ImportB, f - 3);
    FindStep(g, s, ExportForeign, f);
    FindStep(g, s, ExportForeign, f - 1);
    FindStep(g, s, ExportForeign, f - 2);
    FindStep(g, s, ExportForeign, f - 3);
    FindStep(g, s, ExportForeign, f - 4);
  }

  /** Only the foreign import remains. */
  lemma ChainOfImportsRemainingImports()
    ensures WellFormed(ChainOfImports()) && AllReachSources(ChainOfImports())
    ensures ReduceDependencies(ChainOfImports(), None, {}).remainingImports == {ImportForeign.imp}
  {
    ChainOfImportsTerminates();
    var g := ChainOfImports();
    var ri := RemainingImports(g);
    forall i | i in ri ensures i == ImportForeign.imp {
      assert ImportNode(i) in g.nodes && ImportNode(i) !in g.succ;
    }
    assert ImportForeign in g.nodes && ImportForeign !in g.succ;
    assert ImportForeign.imp in ri;
  }

  /** Only the last export remains. */
  lemma ChainOfImportsRemainingExports()
    ensures WellFormed(ChainOfImports()) && AllReachSources(ChainOfImports())
    ensures ReduceDependencies(ChainOfImports(), None, {}).remainingExports == {ExportForeign.exp}
  {
    ChainOfImportsTerminates();
    var g := ChainOfImports();
    var re := RemainingExports(g, None);
    assert g.succ[ImportA] == ExportA && g.succ[ImportB] == ExportB;
    assert HasPredecessor(g, ExportA) && HasPredecessor(g, ExportB);
    forall e | e in re ensures e == ExportForeign.exp {
      assert ExportNode(e) in g.nodes && !HasPredecessor(g, ExportNode(e));
    }
    assert !HasPredecessor(g, ExportForeign);
    assert ExportForeign.exp in re;
  }

  /** The first half of the chain reduces to the foreign import. */
  lemma ChainOfImportsReductionMapHead()
    ensures WellFormed(ChainOfImports()) && AllReachSources(ChainOfImports())
    ensures var m := ReduceDependencies(ChainOfImports(), None, {}).reductionMap;
      m[ImportForeign] == ImportForeign && m[ExportA] == ImportForeign && m[ImportA] == ImportForeign
  {
    ChainOfImportsTerminates();
    var g := ChainOfImports();
    assert ReduceDependencies(g, None, {}).reductionMap == ReductionMap(g);
    ChainOfImportsForeignSource();
    ChainOfImportsEdgeA();
    ReductionFollows(g, ExportA);
    ChainOfImportsEdgeImportA();
    ReductionFollows(g, ImportA);
  }

  /** The edges of the chain's first half. (An instantiation hint: it looks one edge up in the
      map display, apart from the larger scenario proofs.) */
  lemma ChainOfImportsEdgeA()
    ensures ExportA in ChainOfImports().succ && ChainOfImports().succ[ExportA] == ImportForeign
  {
    assert ExportA != ImportA && ExportA != ExportB && ExportA != ImportB && ExportA != ExportForeign;
  }

  /** Instantiation hint: the edge out of A's import. */
  lemma ChainOfImportsEdgeImportA()
    ensures ImportA in ChainOfImports().succ && ChainOfImports().succ[ImportA] == ExportA
  {
    assert ImportA != ExportB && ImportA != ImportB && ImportA != ExportForeign;
  }

  /** The edges of the chain's second half. */
  lemma ChainOfImportsEdgesTail()
    ensures ExportB in ChainOfImports().succ && ChainOfImports().succ[ExportB] == ImportA
    ensures ImportB in ChainOfImports().succ && ChainOfImports().succ[ImportB] == ExportB
    ensures ExportForeign in ChainOfImports().succ && ChainOfImports().succ[ExportForeign] == ImportB
  {
    assert ExportB != ImportB && ExportB != ExportForeign && ImportB != ExportForeign;
  }

  /** The foreign import is the chain's only source. */
  lemma ChainOfImportsForeignSource()
    ensures WellFormed(ChainOfImports()) && AllReachSources(ChainOfImports())
    ensures ReductionMap(ChainOfImports())[ImportForeign] == ImportForeign
  {
    ChainOfImportsTerminates();
    var g := ChainOfImports();
    assert ImportForeign in g.nodes && ImportForeign !in g.succ;
    assert IsSource(g, ImportForeign);
  }

  /** An import or export with an outgoing edge reduces where its successor does. */
  lemma ReductionFollows<Kind>(g: Graph<Kind>, n: Node<Kind>)
    requires WellFormed(g) && AllReachSources(g)
    requires n in g.nodes && n in g.succ && !n.LocalNode?
    ensures ReductionMap(g)[n] == ReductionMap(g)[g.succ[n]]
  {
    assert !IsSource(g, n);
  }

  /** Every node of the chain reduces to the foreign import. */
  lemma ChainOfImportsReductionMap()
    ensures WellFormed(ChainOfImports()) && AllReachSources(ChainOfImports())
    ensures var m := ReduceDependencies(ChainOfImports(), None, {}).reductionMap;
      && m[ImportForeign] == ImportForeign && m[ExportA] == ImportForeign && m[ImportA] == ImportForeign
      && m[ExportB] == ImportForeign && m[ImportB] == ImportForeign && m[ExportForeign] == ImportForeign
  {
    ChainOfImportsReductionMapHead();
    var g := ChainOfImports();
    var m := ReductionMap(g);
    assert ReduceDependencies(g, None, {}).reductionMap == m;
    ChainOfImportsEdgesTail();
    ReductionFollows(g, ExportB);
    ReductionFollows(g, ImportB);
    ReductionFollows(g, ExportForeign);
  }

  // test_with_locals: an external import, and a local exported by A and re-exported by B.
  const ExternalImport := Imp("EXTERNAL", "A", "value", 0)
  const LocalA := Loc("A", 1)
  const ExportToB := Exp("A", "processed", 1)
  const ImportFromA := Imp("A", "B", "processed", 2)
  const FinalExport := Exp("B", "final", 2)

  function WithLocals(): Graph<Function> {
    Graph({ExternalImport, LocalA, ExportToB, ImportFromA, FinalExport},
          map[ExportToB := LocalA, ImportFromA := ExportToB, FinalExport := ImportFromA])
  }

  lemma WithLocalsTerminates()
    ensures WellFormed(WithLocals()) && AllReachSources(WithLocals())
  {
    var g := WithLocals();
    var s := Sources(g);
    assert IsSource(g, ExternalImport) && ExternalImport in s;
    assert IsSource(g, LocalA) && LocalA in s;
    assert ExportToB !in s && ImportFromA !in s && FinalExport !in s;
    var f := |g.nodes|;
    assert f == 5;
    FindStep(g, s, ExportToB, f);
    FindStep(g, s, ImportFromA, f);
    FindStep(g, s, ImportFromA, f - 1);
    FindStep(g, s, FinalExport, f);
    FindStep(g, s, FinalExport, f - 1);
    FindStep(g, s, FinalExport, f - 2);
  }

  /** The external import and the final export remain; the external import and the local
      reduce to themselves, and both exports and the import that consumes the local's export
      reduce to the local. */
  lemma WithLocalsReduction()
    ensures WellFormed(WithLocals()) && AllReachSources(WithLocals())
    ensures var r := ReduceDependencies(WithLocals(), None, {});
      && r.remainingImports == {ExternalImport.imp}
      && r.remainingExports == {FinalExport.exp}
      && r.reductionMap[ExternalImport] == ExternalImport
      && r.reductionMap[LocalA] == LocalA
      && r.reductionMap[ExportToB] == LocalA
      && r.reductionMap[FinalExport] == LocalA
      && r.reductionMap[ImportFromA] == LocalA
  {
    WithLocalsTerminates();
    var g := WithLocals();
    WithLocalsRemaining();
    var m := ReductionMap(g);
    assert ReduceDependencies(g, None, {}).reductionMap == m;
    assert IsSource(g, ExternalImport) && IsSource(g, LocalA);
    WithLocalsEdges();
    ReductionFollows(g, ExportToB);
    ReductionFollows(g, ImportFromA);
    ReductionFollows(g, FinalExport);
  }

  /** The external import and the final export are the only remaining ones. */
  lemma WithLocalsRemaining()
    ensures RemainingImports(WithLocals()) == {ExternalImport.imp}
    ensures RemainingExports(WithLocals(), None) == {FinalExport.exp}
  {
    var g := WithLocals();
    var ri := RemainingImports(g);
    forall i | i in ri ensures i == ExternalImport.imp {
      assert ImportNode(i) in g.nodes && ImportNode(i) !in g.succ;
    }
    assert ExternalImport.imp in ri;
    var re := RemainingExports(g, None);
    forall e | e in re ensures e == FinalExport.exp {
      assert ExportNode(e) in g.nodes && !HasPredecessor(g, ExportNode(e));
      assert HasPredecessor(g, ExportToB);
    }
    assert !HasPredecessor(g, FinalExport);
    assert FinalExport.exp in re;
  }

  /** The edges of the with-locals graph. */
  lemma WithLocalsEdges()
    ensures ExportToB in WithLocals().succ && WithLocals().succ[ExportToB] == LocalA
    ensures ImportFromA in WithLocals().succ && WithLocals().succ[ImportFromA] == ExportToB
    ensures FinalExport in WithLocals().succ && WithLocals().succ[FinalExport] == ImportFromA
  {
    assert ExportToB != ImportFromA && ExportToB != FinalExport && ImportFromA != FinalExport;
  }

  // test_circular_dependency_resolution: A and B import from each other, backed by A's local.
  const ImportIndFib := Imp("B", "A", "ind_fib", 0)
  const LocalFib := Loc("A", 1)
  const ExportFib := Exp("A", "fib", 1)
  const ImportFib := Imp("A", "B", "fib", 0)
  const ExportIndFib := Exp("B", "ind_fib", 0)

  function Circular(): Graph<Function> {
    Graph({ImportIndFib, LocalFib, ExportFib, ImportFib, ExportIndFib},
          map[ImportIndFib := ExportIndFib, ExportIndFib := ImportFib, ImportFib := ExportFib,
              ExportFib := LocalFib])
  }

  lemma CircularTerminates()
    ensures WellFormed(Circular()) && AllReachSources(Circular())
  {
    var g := Circular();
    var s := Sources(g);
    assert IsSource(g, LocalFib) && LocalFib in s;
    assert ImportIndFib !in s && ExportFib !in s && ImportFib !in s && ExportIndFib !in s;
    var f := |g.nodes|;
    assert f == 5;
    FindStep(g, s, ExportFib, f);
    FindStep(g, s, ImportFib, f);
    FindStep(g, s, ImportFib, f - 1);
    FindStep(g, s, ExportIndFib, f);
    FindStep(g, s, ExportIndFib, f - 1);
    FindStep(g, s, ExportIndFib, f - 2);
    FindStep(g, s, ImportIndFib, f);
    FindStep(g, s, ImportIndFib, f - 1);
    FindStep(g, s, ImportIndFib, f - 2);
    FindStep(g, s, ImportIndFib, f - 3);
  }

  /** Circular imports backed by a local leave no import and no export behind, and every node
      reduces to the local. */
  lemma CircularReduction()
    ensures WellFormed(Circular()) && AllReachSources(Circular())
    ensures var r := ReduceDependencies(Circular(), None, {});
      && r.remainingImports == {}
      && r.remainingExports == {}
      && r.reductionMap[ImportIndFib] == LocalFib && r.reductionMap[LocalFib] == LocalFib
      && r.reductionMap[ExportFib] == LocalFib && r.reductionMap[ImportFib] == LocalFib
      && r.reductionMap[ExportIndFib] == LocalFib
  {
    CircularTerminates();
    var g := Circular();
    CircularRemaining();
    var m := ReductionMap(g);
    assert ReduceDependencies(g, None, {}).reductionMap == m;
    assert IsSource(g, LocalFib);
    CircularEdges();
    ReductionFollows(g, ExportFib);
    ReductionFollows(g, ImportFib);
    ReductionFollows(g, ExportIndFib);
    ReductionFollows(g, ImportIndFib);
  }

  /** Every import is linked and every export consumed. */
  lemma CircularRemaining()
    ensures RemainingImports(Circular()) == {}
    ensures RemainingExports(Circular(), None) == {}
  {
    var g := Circular();
    var ri := RemainingImports(g);
    forall i | i in ri ensures false {
    }
    assert ri == {};
    var re := RemainingExports(g, None);
    assert HasPredecessor(g, ExportFib) && HasPredecessor(g, ExportIndFib);
    forall e | e in re ensures false {
    }
    assert re == {};
  }

  /** The edges of the circular graph. */
  lemma CircularEdges()
    ensures ImportIndFib in Circular().succ && Circular().succ[ImportIndFib] == ExportIndFib
    ensures ExportIndFib in Circular().succ && Circular().succ[ExportIndFib] == ImportFib
    ensures ImportFib in Circular().succ && Circular().succ[ImportFib] == ExportFib
    ensures ExportFib in Circular().succ && Circular().succ[ExportFib] == LocalFib
  {
    assert ImportIndFib != ExportIndFib && ImportIndFib != ImportFib && ImportIndFib != ExportFib;
    assert ExportIndFib != ImportFib && ExportIndFib != ExportFib && ImportFib != ExportFib;
  }
}
