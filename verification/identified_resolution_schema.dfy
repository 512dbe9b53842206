/** Ordered identity assignment: the validated schema is drained module by module, and every
    function that survives into the merged module receives a fresh index, imports first and
    internal functions after them, with an old-to-new map keyed by (module, old index). */
module IdentifiedResolutionSchema {
  import opened Wrappers
  import opened Kinds
  import opened ResolutionSchema
  import opened Collections

  /** A function index of the merged module (`AfterFunctionIndex`). */
  type After = nat

  /** An old index together with the new one it was given (`ResolvedIndexMap`). */
  type IndexPair = (Before, After)

  /** The key of the old-to-new map: the module an index belongs to, and the index. */
  type Key = (ModuleName, Before)

  /** The four collections of a validated schema, each in the iteration order of its hash set. */
  datatype SchemaParts = SchemaParts(
    unresolvedImports: seq<ImportSpec<Before>>,
    resolved: seq<Resolved<Before>>,
    internal: seq<FunctionSpec<Before>>,
    unresolvedExports: seq<ExportSpec<Before>>)

  /** `OrderedResolutionSchema`. */
  datatype OrderedSchema = OrderedSchema(
    unresolvedImports: seq<ImportSpec<IndexPair>>,
    resolved: seq<Resolved<IndexPair>>,
    internal: seq<FunctionSpec<IndexPair>>,
    unresolvedExports: seq<ExportSpec<IndexPair>>,
    oldToNew: map<Key, After>)

  // ---------------------------------------------------------------------------------------
  // Who owns an entry, and the index it is sorted by.

  function ImportOwner(i: ImportSpec<Before>): ModuleName { i.importingModule }
  function ImportIndex(i: ImportSpec<Before>): nat { i.index }
  function ResolvedOwner(r: Resolved<Before>): ModuleName { r.exportSpecification.exporter }
  function ResolvedIndex(r: Resolved<Before>): nat { r.exportSpecification.index }
  function InternalOwner(f: FunctionSpec<Before>): ModuleName { f.definingModule }
  function InternalIndex(f: FunctionSpec<Before>): nat { f.index }
  function ExportOwner(e: ExportSpec<Before>): ModuleName { e.exporter }
  function ExportIndex(e: ExportSpec<Before>): nat { e.index }

  /** `remove_sorted_unresolved_imports`: the imports of `m`, sorted by index, and the others. */
  function RemoveSortedUnresolvedImports(imports: seq<ImportSpec<Before>>, m: ModuleName)
    : (r: (seq<ImportSpec<Before>>, seq<ImportSpec<Before>>))
    ensures forall x | x in r.0 :: x in imports && x.importingModule == m
    ensures forall x | x in imports && x.importingModule == m :: x in r.0
    ensures forall x | x in r.1 :: x in imports && x.importingModule != m
    ensures forall x | x in imports && x.importingModule != m :: x in r.1
    ensures SortedBy(r.0, ImportIndex)
    ensures multiset(r.0) + multiset(r.1) == multiset(imports)
  {
    RemoveSorted(imports, m, ImportOwner, ImportIndex)
  }

  /** `remove_sorted_resolved`: the resolved exports of `m`, sorted by export index, and the others. */
  function RemoveSortedResolved(resolved: seq<Resolved<Before>>, m: ModuleName)
    : (r: (seq<Resolved<Before>>, seq<Resolved<Before>>))
    ensures forall x | x in r.0 :: x in resolved && x.exportSpecification.exporter == m
    ensures forall x | x in resolved && x.exportSpecification.exporter == m :: x in r.0
    ensures forall x | x in r.1 :: x in resolved && x.exportSpecification.exporter != m
    ensures forall x | x in resolved && x.exportSpecification.exporter != m :: x in r.1
    ensures SortedBy(r.0, ResolvedIndex)
    ensures multiset(r.0) + multiset(r.1) == multiset(resolved)
  {
    RemoveSorted(resolved, m, ResolvedOwner, ResolvedIndex)
  }

  /** `remove_internal`: the functions `m` defines, sorted by index, and the others. */
  function RemoveInternal(internal: seq<FunctionSpec<Before>>, m: ModuleName)
    : (r: (seq<FunctionSpec<Before>>, seq<FunctionSpec<Before>>))
    ensures forall x | x in r.0 :: x in internal && x.definingModule == m
    ensures forall x | x in internal && x.definingModule == m :: x in r.0
    ensures forall x | x in r.1 :: x in internal && x.definingModule != m
    ensures forall x | x in internal && x.definingModule != m :: x in r.1
    ensures SortedBy(r.0, InternalIndex)
    ensures multiset(r.0) + multiset(r.1) == multiset(internal)
  {
    RemoveSorted(internal, m, InternalOwner, InternalIndex)
  }

  /** `remove_sorted_unresolved_exports`: the unresolved exports of `m`, sorted by index, and the others. */
  function RemoveSortedUnresolvedExports(exports: seq<ExportSpec<Before>>, m: ModuleName)
    : (r: (seq<ExportSpec<Before>>, seq<ExportSpec<Before>>))
    ensures forall x | x in r.0 :: x in exports && x.exporter == m
    ensures forall x | x in exports && x.exporter == m :: x in r.0
    ensures forall x | x in r.1 :: x in exports && x.exporter != m
    ensures forall x | x in exports && x.exporter != m :: x in r.1
    ensures SortedBy(r.0, ExportIndex)
    ensures multiset(r.0) + multiset(r.1) == multiset(exports)
  {
    RemoveSorted(exports, m, ExportOwner, ExportIndex)
  }

  /** The `while let` loop of `assign_identities`: per module in slice order, its entries of each
      collection are removed sorted and appended. The four collections do not influence each
      other, so each is drained on its own; entries of modules not in the slice are dropped. */
  function Drained(parts: SchemaParts, modules: seq<ModuleName>): SchemaParts {
    SchemaParts(
      Drain(parts.unresolvedImports, modules, ImportOwner, ImportIndex).0,
      Drain(parts.resolved, modules, ResolvedOwner, ResolvedIndex).0,
      Drain(parts.internal, modules, InternalOwner, InternalIndex).0,
      Drain(parts.unresolvedExports, modules, ExportOwner, ExportIndex).0)
  }

  /** Every collected list holds exactly the entries of the listed modules, grouped by module in
      slice order and sorted by old index within a module. */
  lemma DrainedInModuleOrder(parts: SchemaParts, modules: seq<ModuleName>)
    ensures forall x | x in Drained(parts, modules).unresolvedImports :: x in parts.unresolvedImports && x.importingModule in modules
    ensures forall x | x in parts.unresolvedImports && x.importingModule in modules :: x in Drained(parts, modules).unresolvedImports
    ensures DrainOrdered(Drained(parts, modules).unresolvedImports, modules, ImportOwner, ImportIndex)
    ensures forall x | x in Drained(parts, modules).resolved :: x in parts.resolved && x.exportSpecification.exporter in modules
    ensures forall x | x in parts.resolved && x.exportSpecification.exporter in modules :: x in Drained(parts, modules).resolved
    ensures DrainOrdered(Drained(parts, modules).resolved, modules, ResolvedOwner, ResolvedIndex)
    ensures forall x | x in Drained(parts, modules).internal :: x in parts.internal && x.definingModule in modules
    ensures forall x | x in parts.internal && x.definingModule in modules :: x in Drained(parts, modules).internal
    ensures DrainOrdered(Drained(parts, modules).internal, modules, InternalOwner, InternalIndex)
    ensures forall x | x in Drained(parts, modules).unresolvedExports :: x in parts.unresolvedExports && x.exporter in modules
    ensures forall x | x in parts.unresolvedExports && x.exporter in modules :: x in Drained(parts, modules).unresolvedExports
    ensures DrainOrdered(Drained(parts, modules).unresolvedExports, modules, ExportOwner, ExportIndex)
  {
    DrainCollects(parts.unresolvedImports, modules, ImportOwner, ImportIndex);
    DrainSorted(parts.unresolvedImports, modules, ImportOwner, ImportIndex);
    DrainCollects(parts.resolved, modules, ResolvedOwner, ResolvedIndex);
    DrainSorted(parts.resolved, modules, ResolvedOwner, ResolvedIndex);
    DrainCollects(parts.internal, modules, InternalOwner, InternalIndex);
    DrainSorted(parts.internal, modules, InternalOwner, InternalIndex);
    DrainCollects(parts.unresolvedExports, modules, ExportOwner, ExportIndex);
    DrainSorted(parts.unresolvedExports, modules, ExportOwner, ExportIndex);
  }

  // ---------------------------------------------------------------------------------------
  // Handing out new indices.

  function ImportKey(i: ImportSpec<Before>): Key { (i.importingModule, i.index) }
  function InternalKey(f: FunctionSpec<Before>): Key { (f.definingModule, f.index) }
  function ExportKey(e: ExportSpec<Before>): Key { (e.exporter, e.index) }

  /** The import with its new index attached (the value built by the import's `for_merged`). */
  function ImportForMerged(i: ImportSpec<Before>, next: After): (r: ImportSpec<IndexPair>)
    ensures OldImport(r) == i && r.index.1 == next
  {
    ImportSpec(i.importingModule, i.exportingModule, i.name, i.ty, (i.index, next))
  }

  /** Forget the new index of an import. */
  function OldImport(i: ImportSpec<IndexPair>): ImportSpec<Before> {
    ImportSpec(i.importingModule, i.exportingModule, i.name, i.ty, i.index.0)
  }

  /** The internal function with its new index attached (the internal `for_merged`). */
  function InternalForMerged(f: FunctionSpec<Before>, next: After): (r: FunctionSpec<IndexPair>)
    ensures OldInternal(r) == f && r.index.1 == next
  {
    FunctionSpec(f.definingModule, f.ty, (f.index, next))
  }

  function OldInternal(f: FunctionSpec<IndexPair>): FunctionSpec<Before> {
    FunctionSpec(f.definingModule, f.ty, f.index.0)
  }

  /** No two entries of `s` share a key. */
  predicate DistinctKeys<T>(s: seq<T>, keyOf: T -> Key) {
    forall i, j | 0 <= i < j < |s| :: keyOf(s[i]) != keyOf(s[j])
  }

  /** No two entries share a key, and none is among the keys already `used`. */
  predicate FreshKeys<T>(s: seq<T>, keyOf: T -> Key, used: set<Key>) {
    DistinctKeys(s, keyOf) && forall k | 0 <= k < |s| :: keyOf(s[k]) !in used
  }

  /** The keys of the entries of `s`. */
  function KeySet<T>(s: seq<T>, keyOf: T -> Key): set<Key> {
    set k | 0 <= k < |s| :: keyOf(s[k])
  }

  /** The `map(for_merged)` over imports or internal functions: each entry in turn takes the next
      index from the yielder, inserts its key into the old-to-new map and asserts the key was
      absent. `next` is the next index the yielder hands out. */
  function ForMerged<T, U>(s: seq<T>, keyOf: T -> Key, attach: (T, After) -> U, next: After, m: map<Key, After>)
    : (r: Result<(seq<U>, map<Key, After>), Panic>)
    ensures r.Success? <==> FreshKeys(s, keyOf, m.Keys)
    ensures r.Failure? ==> r.error == KeyAlreadyPresent
    ensures r.Success? ==> |r.value.0| == |s| && forall k | 0 <= k < |s| :: r.value.0[k] == attach(s[k], next + k)
    ensures r.Success? ==> r.value.1.Keys == m.Keys + KeySet(s, keyOf)
    ensures r.Success? ==> forall x | x in m :: r.value.1[x] == m[x]
    ensures r.Success? ==> forall k | 0 <= k < |s| :: r.value.1[keyOf(s[k])] == next + k
    decreases |s|
  {
    if |s| == 0 then Success(([], m))
    else if keyOf(s[0]) in m then Failure(KeyAlreadyPresent)
    else
      var tail := ForMerged(s[1..], keyOf, attach, next + 1, m[keyOf(s[0]) := next]);
      ForMergedStep(s, keyOf, m, next);
      match tail
      case Failure(e) => Failure(e)
      case Success((rest, m')) => Success(([attach(s[0], next)] + rest, m'))
  }

  /** How freshness and the key set of `s` split into its head and its tail. */
  lemma ForMergedStep<T>(s: seq<T>, keyOf: T -> Key, m: map<Key, After>, next: After)
    requires |s| > 0 && keyOf(s[0]) !in m
    ensures FreshKeys(s, keyOf, m.Keys) <==> FreshKeys(s[1..], keyOf, m[keyOf(s[0]) := next].Keys)
    ensures KeySet(s, keyOf) == {keyOf(s[0])} + KeySet(s[1..], keyOf)
  {
    var m' := m[keyOf(s[0]) := next];
    if FreshKeys(s[1..], keyOf, m'.Keys) {
      forall i, j | 0 <= i < j < |s| ensures keyOf(s[i]) != keyOf(s[j]) {
        if i == 0 {
          assert s[j] == s[1..][j - 1];
        } else {
          assert s[i] == s[1..][i - 1] && s[j] == s[1..][j - 1];
        }
      }
      forall k | 0 <= k < |s| ensures keyOf(s[k]) !in m {
        if k > 0 {
          assert s[k] == s[1..][k - 1];
        }
      }
    }
    if FreshKeys(s, keyOf, m.Keys) {
      forall k | 0 <= k < |s[1..]| ensures keyOf(s[1..][k]) !in m' {
        assert s[1..][k] == s[k + 1];
      }
    }
    forall x | x in KeySet(s, keyOf) ensures x in {keyOf(s[0])} + KeySet(s[1..], keyOf) {
      var k :| 0 <= k < |s| && keyOf(s[k]) == x;
      if k > 0 {
        assert s[k] == s[1..][k - 1];
      }
    }
    forall x | x in KeySet(s[1..], keyOf) ensures x in KeySet(s, keyOf) {
      var k :| 0 <= k < |s[1..]| && keyOf(s[1..][k]) == x;
      assert s[1..][k] == s[k + 1];
    }
  }

  /** The export's `for_merged`: look its key up in the finished map; a missing key panics. */
  function ExportForMerged(e: ExportSpec<Before>, m: map<Key, After>): (r: Result<ExportSpec<IndexPair>, Panic>)
    ensures r.Failure? <==> ExportKey(e) !in m
    ensures r.Failure? ==> r.error == KeyMissing
    ensures r.Success? ==> OldExport(r.value) == e && r.value.index.1 == m[ExportKey(e)]
  {
    if ExportKey(e) in m then Success(ExportSpec(e.exporter, e.name, e.ty, (e.index, m[ExportKey(e)])))
    else Failure(KeyMissing)
  }

  function OldExport(e: ExportSpec<IndexPair>): ExportSpec<Before> {
    ExportSpec(e.exporter, e.name, e.ty, e.index.0)
  }

  /** The `map(for_merged)` over the unresolved exports: the first export without a mapping panics. */
  function ExportsForMerged(es: seq<ExportSpec<Before>>, m: map<Key, After>): (r: Result<seq<ExportSpec<IndexPair>>, Panic>)
    ensures r.Success? <==> forall k | 0 <= k < |es| :: ExportKey(es[k]) in m
    ensures r.Failure? ==> r.error == KeyMissing
    ensures r.Success? ==> |r.value| == |es|
    ensures r.Success? ==> forall k | 0 <= k < |es| :: OldExport(r.value[k]) == es[k] && r.value[k].index.1 == m[ExportKey(es[k])]
    decreases |es|
  {
    if |es| == 0 then Success([])
    else
      match ExportForMerged(es[0], m)
      case Failure(e) => Failure(e)
      case Success(first) =>
        match ExportsForMerged(es[1..], m)
        case Failure(e) =>
          assert !(forall k | 0 <= k < |es| :: ExportKey(es[k]) in m) by {
            var k :| 0 <= k < |es[1..]| && ExportKey(es[1..][k]) !in m;
            assert es[1..][k] == es[k + 1];
          }
          Failure(e)
        case Success(rest) =>
          assert forall k | 0 <= k < |es[1..]| :: es[1..][k] == es[k + 1];
          Success([first] + rest)
  }

  // ---------------------------------------------------------------------------------------
  // assign_identities.

  /** `assign_identities`: drain the schema in module order, then number what was drained. */
  function AssignIdentities(parts: SchemaParts, modules: seq<ModuleName>): Result<OrderedSchema, Panic> {
    Assign(Drained(parts, modules))
  }

  /** The numbering half of `assign_identities`: every unresolved import takes the next index,
      then every internal function; the unresolved exports are looked up. The resolved exports
      reach `first_pass`, which is `todo!()`, so any of them aborts. */
  function Assign(d: SchemaParts): (r: Result<OrderedSchema, Panic>)
    ensures r.Success? ==> |d.resolved| == 0 && r.value.resolved == []
    ensures r.Success? ==> |r.value.unresolvedImports| == |d.unresolvedImports|
    ensures r.Success? ==> forall k | 0 <= k < |d.unresolvedImports| ::
              OldImport(r.value.unresolvedImports[k]) == d.unresolvedImports[k] && r.value.unresolvedImports[k].index.1 == k
    ensures r.Success? ==> |r.value.internal| == |d.internal|
    ensures r.Success? ==> forall k | 0 <= k < |d.internal| ::
              OldInternal(r.value.internal[k]) == d.internal[k] && r.value.internal[k].index.1 == |d.unresolvedImports| + k
    ensures r.Success? ==> |r.value.unresolvedExports| == |d.unresolvedExports|
    ensures r.Success? ==> forall k | 0 <= k < |d.unresolvedExports| ::
              OldExport(r.value.unresolvedExports[k]) == d.unresolvedExports[k]
              && ExportKey(d.unresolvedExports[k]) in r.value.oldToNew
              && r.value.unresolvedExports[k].index.1 == r.value.oldToNew[ExportKey(d.unresolvedExports[k])]
    // The old-to-new map records exactly the imports' and internal functions' keys.
    ensures r.Success? ==> r.value.oldToNew.Keys == KeySet(d.unresolvedImports, ImportKey) + KeySet(d.internal, InternalKey)
    ensures r.Success? ==> forall k | 0 <= k < |d.unresolvedImports| :: r.value.oldToNew[ImportKey(d.unresolvedImports[k])] == k
    ensures r.Success? ==> forall k | 0 <= k < |d.internal| ::
              r.value.oldToNew[InternalKey(d.internal[k])] == |d.unresolvedImports| + k
  {
    match ForMerged(d.unresolvedImports, ImportKey, ImportForMerged, 0, map[])
    case Failure(e) => Failure(e)
    case Success((imports, m1)) =>
      if |d.resolved| > 0 then Failure(Unimplemented)
      else
        match ForMerged(d.internal, InternalKey, InternalForMerged, |imports|, m1)
        case Failure(e) => Failure(e)
        case Success((internal, m2)) =>
          match ExportsForMerged(d.unresolvedExports, m2)
          case Failure(e) => Failure(e)
          case Success(exports) => Success(OrderedSchema(imports, [], internal, exports, m2))
  }


  /** When numbering succeeds, and which panic stops it otherwise: a key inserted twice among the
      imports, then any resolved export, then an internal function's key inserted twice or
      already taken by an import, then an export whose key was never inserted. */
  lemma AssignOutcome(d: SchemaParts)
    ensures Assign(d).Failure? && Assign(d).error == KeyAlreadyPresent
            <==> !DistinctKeys(d.unresolvedImports, ImportKey)
                 || (|d.resolved| == 0 && !FreshKeys(d.internal, InternalKey, KeySet(d.unresolvedImports, ImportKey)))
    ensures Assign(d).Failure? && Assign(d).error == Unimplemented
            <==> DistinctKeys(d.unresolvedImports, ImportKey) && |d.resolved| > 0
    ensures Assign(d).Success?
            <==> DistinctKeys(d.unresolvedImports, ImportKey) && |d.resolved| == 0
                 && FreshKeys(d.internal, InternalKey, KeySet(d.unresolvedImports, ImportKey))
                 && forall k | 0 <= k < |d.unresolvedExports| ::
                      ExportKey(d.unresolvedExports[k]) in KeySet(d.unresolvedImports, ImportKey) + KeySet(d.internal, InternalKey)
  {
    var empty: map<Key, After> := map[];
    var first := ForMerged(d.unresolvedImports, ImportKey, ImportForMerged, 0, empty);
    assert FreshKeys(d.unresolvedImports, ImportKey, empty.Keys) <==> DistinctKeys(d.unresolvedImports, ImportKey);
    if first.Success? && |d.resolved| == 0 {
      var second := ForMerged(d.internal, InternalKey, InternalForMerged, |first.value.0|, first.value.1);
      if second.Success? {
        assert second.value.1.Keys == KeySet(d.unresolvedImports, ImportKey) + KeySet(d.internal, InternalKey);
      }
    }
  }

  /** Every import is numbered before every internal function. */
  lemma AssignImportsFirst(d: SchemaParts)
    requires Assign(d).Success?
    ensures forall a, b | a in Assign(d).value.unresolvedImports && b in Assign(d).value.internal :: a.index.1 < b.index.1
  {
    var o := Assign(d).value;
    forall a, b | a in o.unresolvedImports && b in o.internal ensures a.index.1 < b.index.1 {
      var i :| 0 <= i < |o.unresolvedImports| && o.unresolvedImports[i] == a;
      var j :| 0 <= j < |o.internal| && o.internal[j] == b;
    }
  }

  /** Every key of the old-to-new map sits at the position its new index names. */
  lemma AssignPositions(d: SchemaParts, x: Key)
    ensures Assign(d).Success? && x in Assign(d).value.oldToNew ==>
              && Assign(d).value.oldToNew[x] < |d.unresolvedImports| + |d.internal|
              && (Assign(d).value.oldToNew[x] < |d.unresolvedImports| ==>
                    ImportKey(d.unresolvedImports[Assign(d).value.oldToNew[x]]) == x)
              && (Assign(d).value.oldToNew[x] >= |d.unresolvedImports| ==>
                    InternalKey(d.internal[Assign(d).value.oldToNew[x] - |d.unresolvedImports|]) == x)
  {
    if Assign(d).Success? && x in Assign(d).value.oldToNew {
      var a := NumberedPosition(d.unresolvedImports, d.internal, Assign(d).value.oldToNew, x);
    }
  }

  /** The new indices lie below the number of numbered functions, and distinct keys get
      distinct new indices. */
  lemma AssignInjective(d: SchemaParts)
    requires Assign(d).Success?
    ensures forall x | x in Assign(d).value.oldToNew :: Assign(d).value.oldToNew[x] < |d.unresolvedImports| + |d.internal|
    ensures forall x, y | x in Assign(d).value.oldToNew && y in Assign(d).value.oldToNew && x != y ::
              Assign(d).value.oldToNew[x] != Assign(d).value.oldToNew[y]
  {
    NumberingInjective(d.unresolvedImports, d.internal, Assign(d).value.oldToNew);
  }

  /** A map that numbers the imports' keys by position, then the internal functions' keys after
      them, and holds nothing else, is injective and stays below the count. */
  lemma NumberingInjective(imports: seq<ImportSpec<Before>>, internal: seq<FunctionSpec<Before>>, m: map<Key, After>)
    requires m.Keys == KeySet(imports, ImportKey) + KeySet(internal, InternalKey)
    requires forall k | 0 <= k < |imports| :: m[ImportKey(imports[k])] == k
    requires forall k | 0 <= k < |internal| :: m[InternalKey(internal[k])] == |imports| + k
    ensures forall x | x in m :: m[x] < |imports| + |internal|
    ensures forall x, y | x in m && y in m && x != y :: m[x] != m[y]
  {
    forall x | x in m ensures m[x] < |imports| + |internal| {
      var a := NumberedPosition(imports, internal, m, x);
    }
    forall x, y | x in m && y in m && x != y ensures m[x] != m[y] {
      var a := NumberedPosition(imports, internal, m, x);
      var b := NumberedPosition(imports, internal, m, y);
      NamedBack(imports, internal, a, b, x, y);
    }
  }

  /** The position a key of such a map stands for, and the key found there. */
  lemma NumberedPosition(imports: seq<ImportSpec<Before>>, internal: seq<FunctionSpec<Before>>, m: map<Key, After>, x: Key)
    returns (a: nat)
    requires m.Keys == KeySet(imports, ImportKey) + KeySet(internal, InternalKey)
    requires forall k | 0 <= k < |imports| :: m[ImportKey(imports[k])] == k
    requires forall k | 0 <= k < |internal| :: m[InternalKey(internal[k])] == |imports| + k
    requires x in m
    ensures a == m[x] && a < |imports| + |internal|
    ensures a < |imports| ==> ImportKey(imports[a]) == x
    ensures a >= |imports| ==> InternalKey(internal[a - |imports|]) == x
  {
    if x in KeySet(imports, ImportKey) {
      var i :| 0 <= i < |imports| && ImportKey(imports[i]) == x;
      a := i;
    } else {
      var j :| 0 <= j < |internal| && InternalKey(internal[j]) == x;
      a := |imports| + j;
    }
  }

  /** A position among the numbered functions names one key. */
  lemma NamedBack(imports: seq<ImportSpec<Before>>, internal: seq<FunctionSpec<Before>>, a: nat, b: nat, x: Key, y: Key)
    requires a < |imports| ==> ImportKey(imports[a]) == x
    requires a >= |imports| && a - |imports| < |internal| ==> InternalKey(internal[a - |imports|]) == x
    requires b < |imports| ==> ImportKey(imports[b]) == y
    requires b >= |imports| && b - |imports| < |internal| ==> InternalKey(internal[b - |imports|]) == y
    requires a < |imports| + |internal| && x != y
    ensures a != b
  {
  }

  // ---------------------------------------------------------------------------------------
  // Queries on the ordered schema.

  /** Whether an import survives into the merged module. */
  datatype MergedImport = ImportResolved | ImportUnresolved(spec: ImportSpec<IndexPair>)

  /** Whether an export survives into the merged module. */
  datatype MergedExport = ExportResolved | ExportUnresolved(spec: ExportSpec<IndexPair>)

  predicate ImportMatches(i: ImportSpec<IndexPair>, exporting: ModuleName, name: string, importing: ModuleName) {
    i.exportingModule == exporting && i.name == name && i.importingModule == importing
  }

  /** `determine_merged_import`: the first unresolved import from `exporting` named `name`
      into `importing`, if there is one. */
  function DetermineMergedImport(o: OrderedSchema, exporting: ModuleName, name: string, importing: ModuleName)
    : (r: MergedImport)
    ensures r.ImportUnresolved? <==> exists i | i in o.unresolvedImports :: ImportMatches(i, exporting, name, importing)
    ensures r.ImportUnresolved? ==> ImportMatches(r.spec, exporting, name, importing)
    ensures r.ImportUnresolved? ==> exists k | 0 <= k < |o.unresolvedImports| ::
              o.unresolvedImports[k] == r.spec
              && forall j | 0 <= j < k :: !ImportMatches(o.unresolvedImports[j], exporting, name, importing)
  {
    match FindFirst(o.unresolvedImports, i => ImportMatches(i, exporting, name, importing))
    case Some(k) => ImportUnresolved(o.unresolvedImports[k])
    case None => ImportResolved
  }

  predicate ExportMatches(e: ExportSpec<IndexPair>, exporting: ModuleName, name: string) {
    e.exporter == exporting && e.name == name
  }

  /** `determine_merged_export`: the first unresolved export of `exporting` named `name`, if any. */
  function DetermineMergedExport(o: OrderedSchema, exporting: ModuleName, name: string) : (r: MergedExport)
    ensures r.ExportUnresolved? <==> exists e | e in o.unresolvedExports :: ExportMatches(e, exporting, name)
    ensures r.ExportUnresolved? ==> ExportMatches(r.spec, exporting, name)
    ensures r.ExportUnresolved? ==> exists k | 0 <= k < |o.unresolvedExports| ::
              o.unresolvedExports[k] == r.spec
              && forall j | 0 <= j < k :: !ExportMatches(o.unresolvedExports[j], exporting, name)
  {
    match FindFirst(o.unresolvedExports, e => ExportMatches(e, exporting, name))
    case Some(k) => ExportUnresolved(o.unresolvedExports[k])
    case None => ExportResolved
  }

  // ---------------------------------------------------------------------------------------
  // get_indices.

  /** The old indices of a sequence of index pairs. */
  function OldIndices(pairs: seq<IndexPair>): set<Before> {
    set k | 0 <= k < |pairs| :: pairs[k].0
  }

  /** `HashMap::insert` of each pair in turn: a later pair with the same old index overwrites. */
  function InsertPairs(h: map<Before, After>, pairs: seq<IndexPair>): (r: map<Before, After>)
    ensures r.Keys == h.Keys + OldIndices(pairs)
    ensures |pairs| > 0 ==> r[pairs[|pairs| - 1].0] == pairs[|pairs| - 1].1
    ensures forall x | x in r :: (x in h && r[x] == h[x]) || (x, r[x]) in pairs
    decreases |pairs|
  {
    if |pairs| == 0 then h
    else
      var prefix, last := pairs[..|pairs| - 1], pairs[|pairs| - 1];
      assert pairs == prefix + [last];
      assert OldIndices(pairs) == OldIndices(prefix) + {last.0} by {
        forall x | x in OldIndices(pairs) ensures x in OldIndices(prefix) + {last.0} {
          var k :| 0 <= k < |pairs| && pairs[k].0 == x;
          if k < |prefix| {
            assert prefix[k] == pairs[k];
          }
        }
        forall x | x in OldIndices(prefix) ensures x in OldIndices(pairs) {
          var k :| 0 <= k < |prefix| && prefix[k].0 == x;
          assert pairs[k] == prefix[k];
        }
      }
      InsertPairs(h, prefix)[last.0 := last.1]
  }

  /** The index pairs of the imports that `considering` makes. */
  function ImportPairs(imports: seq<ImportSpec<IndexPair>>, considering: string): (r: seq<IndexPair>)
    ensures forall p | p in r :: exists i | i in imports :: i.importingModule.name == considering && i.index == p
    ensures forall i | i in imports && i.importingModule.name == considering :: i.index in r
    decreases |imports|
  {
    if |imports| == 0 then []
    else
      var rest := ImportPairs(imports[1..], considering);
      assert forall i | i in imports[1..] :: i in imports;
      if imports[0].importingModule.name == considering then [imports[0].index] + rest else rest
  }

  /** The index pairs of the resolved imports that `considering` makes, export by export. */
  function ResolvedPairs(resolved: seq<Resolved<IndexPair>>, considering: string): (r: seq<IndexPair>)
    ensures |resolved| == 0 ==> r == []
    decreases |resolved|
  {
    if |resolved| == 0 then []
    else ImportPairs(resolved[0].resolvedImports, considering) + ResolvedPairs(resolved[1..], considering)
  }

  /** The index pairs of internal functions. */
  function InternalPairs(internal: seq<FunctionSpec<IndexPair>>): (r: seq<IndexPair>)
    ensures |r| == |internal| && forall k | 0 <= k < |internal| :: r[k] == internal[k].index
  {
    seq(|internal|, k requires 0 <= k < |internal| => internal[k].index)
  }

  /** `get_indices` as written: the imports and resolved imports are restricted to the considered
      module, but the internal functions of every module are inserted, last. */
  function GetIndicesAsWritten(o: OrderedSchema, considering: string): (r: map<Before, After>)
    ensures forall f | f in o.internal :: f.index.0 in r
    ensures forall i | i in o.unresolvedImports && i.importingModule.name == considering :: i.index.0 in r
    ensures forall b | b in r ::
              (exists i | i in o.unresolvedImports :: i.importingModule.name == considering && i.index.0 == b)
              || b in OldIndices(ResolvedPairs(o.resolved, considering))
              || (exists f | f in o.internal :: f.index.0 == b)
  {
    var withImports := InsertPairs(map[], ImportPairs(o.unresolvedImports, considering));
    var withResolved := InsertPairs(withImports, ResolvedPairs(o.resolved, considering));
    InsertPairs(withResolved, InternalPairs(o.internal))
  }

  /** The index pairs of the internal functions that `considering` defines. */
  function OwnInternalPairs(internal: seq<FunctionSpec<IndexPair>>, considering: string): (r: seq<IndexPair>)
    ensures forall p | p in r :: exists f | f in internal :: f.definingModule.name == considering && f.index == p
    ensures forall f | f in internal && f.definingModule.name == considering :: f.index in r
    decreases |internal|
  {
    if |internal| == 0 then []
    else
      var rest := OwnInternalPairs(internal[1..], considering);
      assert forall f | f in internal[1..] :: f in internal;
      if internal[0].definingModule.name == considering then [internal[0].index] + rest else rest
  }

  /** `get_indices` with the internal functions restricted to the considered module, like the
      imports are: the map from the considered module's old function indices to new ones. */
  function GetIndices(o: OrderedSchema, considering: string): (r: map<Before, After>)
    ensures forall f | f in o.internal && f.definingModule.name == considering :: f.index.0 in r
    ensures forall i | i in o.unresolvedImports && i.importingModule.name == considering :: i.index.0 in r
    ensures forall b | b in r ::
              (exists i | i in o.unresolvedImports :: i.importingModule.name == considering && i.index.0 == b)
              || b in OldIndices(ResolvedPairs(o.resolved, considering))
              || (exists f | f in o.internal :: f.definingModule.name == considering && f.index.0 == b)
  {
    var withImports := InsertPairs(map[], ImportPairs(o.unresolvedImports, considering));
    var withResolved := InsertPairs(withImports, ResolvedPairs(o.resolved, considering));
    InsertPairs(withResolved, OwnInternalPairs(o.internal, considering))
  }

  /** The part of the old-to-new map that belongs to module `considering`, keyed by old index. */
  function ModuleSlice(oldToNew: map<Key, After>, considering: string): (r: map<Before, After>)
    ensures forall b :: b in r <==> (ModuleName(considering), b) in oldToNew
    ensures forall b | b in r :: r[b] == oldToNew[(ModuleName(considering), b)]
  {
    var own := set x | x in oldToNew && x.0 == ModuleName(considering) :: x.1;
    assert forall b :: b in own <==> (ModuleName(considering), b) in oldToNew by {
      forall b | (ModuleName(considering), b) in oldToNew ensures b in own {
        var x := (ModuleName(considering), b);
        assert x.1 == b;
      }
    }
    map b | b in own :: oldToNew[(ModuleName(considering), b)]
  }

  /** An import's index pair from a successful numbering agrees with the old-to-new map. */
  lemma ImportPairAgrees(d: SchemaParts, considering: string, p: IndexPair)
    requires Assign(d).Success? && p in ImportPairs(Assign(d).value.unresolvedImports, considering)
    ensures (ModuleName(considering), p.0) in Assign(d).value.oldToNew
    ensures p.1 == Assign(d).value.oldToNew[(ModuleName(considering), p.0)]
  {
    var k := PairPosition(Assign(d).value.unresolvedImports, considering, p);
    ImportNumbered(d, k);
  }

  /** Where an import pair of the considered module comes from. */
  lemma PairPosition(imports: seq<ImportSpec<IndexPair>>, considering: string, p: IndexPair) returns (k: nat)
    requires p in ImportPairs(imports, considering)
    ensures k < |imports| && imports[k].importingModule.name == considering && imports[k].index == p
  {
    var i :| i in imports && i.importingModule.name == considering && i.index == p;
    k :| 0 <= k < |imports| && imports[k] == i;
  }

  /** Where an internal pair of the considered module comes from. */
  lemma InternalPairPosition(internal: seq<FunctionSpec<IndexPair>>, considering: string, p: IndexPair) returns (k: nat)
    requires p in OwnInternalPairs(internal, considering)
    ensures k < |internal| && internal[k].definingModule.name == considering && internal[k].index == p
  {
    var f :| f in internal && f.definingModule.name == considering && f.index == p;
    k :| 0 <= k < |internal| && internal[k] == f;
  }

  /** The k-th import keeps its key, is numbered k, and its key maps to k. */
  lemma ImportNumbered(d: SchemaParts, k: nat)
    requires Assign(d).Success? && k < |d.unresolvedImports|
    ensures OldImport(Assign(d).value.unresolvedImports[k]) == d.unresolvedImports[k]
    ensures ImportKey(d.unresolvedImports[k]) in Assign(d).value.oldToNew
    ensures Assign(d).value.oldToNew[ImportKey(d.unresolvedImports[k])] == Assign(d).value.unresolvedImports[k].index.1
  {
    assert ImportKey(d.unresolvedImports[k]) in KeySet(d.unresolvedImports, ImportKey);
  }

  /** An internal function's index pair from a successful numbering agrees with the old-to-new map. */
  lemma InternalPairAgrees(d: SchemaParts, considering: string, p: IndexPair)
    requires Assign(d).Success? && p in OwnInternalPairs(Assign(d).value.internal, considering)
    ensures (ModuleName(considering), p.0) in Assign(d).value.oldToNew
    ensures p.1 == Assign(d).value.oldToNew[(ModuleName(considering), p.0)]
  {
    var k := InternalPairPosition(Assign(d).value.internal, considering, p);
    InternalNumbered(d, k);
  }

  /** The k-th internal function keeps its key, and its key maps to its new index. */
  lemma InternalNumbered(d: SchemaParts, k: nat)
    requires Assign(d).Success? && k < |d.internal|
    ensures OldInternal(Assign(d).value.internal[k]) == d.internal[k]
    ensures InternalKey(d.internal[k]) in Assign(d).value.oldToNew
    ensures Assign(d).value.oldToNew[InternalKey(d.internal[k])] == Assign(d).value.internal[k].index.1
  {
    assert InternalKey(d.internal[k]) in KeySet(d.internal, InternalKey);
  }

  /** Every key of the considered module in the old-to-new map is an old index of one of its
      imports or internal functions in the ordered schema. */
  lemma AssignSliceCovered(d: SchemaParts, considering: string, b: Before)
    requires Assign(d).Success? && (ModuleName(considering), b) in Assign(d).value.oldToNew
    ensures (exists i | i in Assign(d).value.unresolvedImports :: i.importingModule.name == considering && i.index.0 == b)
            || (exists f | f in Assign(d).value.internal :: f.definingModule.name == considering && f.index.0 == b)
  {
    var o := Assign(d).value;
    var x := (ModuleName(considering), b);
    if x in KeySet(d.unresolvedImports, ImportKey) {
      var k :| 0 <= k < |d.unresolvedImports| && ImportKey(d.unresolvedImports[k]) == x;
      assert o.unresolvedImports[k] in o.unresolvedImports;
    } else {
      var k :| 0 <= k < |d.internal| && InternalKey(d.internal[k]) == x;
      assert o.internal[k] in o.internal;
    }
  }

  /** After a successful numbering, the corrected `get_indices` of a module is exactly that
      module's part of the old-to-new map. */
  lemma GetIndicesIsModuleSlice(d: SchemaParts, considering: string)
    requires Assign(d).Success?
    ensures GetIndices(Assign(d).value, considering) == ModuleSlice(Assign(d).value.oldToNew, considering)
  {
    var o := Assign(d).value;
    var slice := ModuleSlice(o.oldToNew, considering);
    var importPairs := ImportPairs(o.unresolvedImports, considering);
    var internalPairs := OwnInternalPairs(o.internal, considering);
    forall p | p in importPairs ensures p.0 in slice && p.1 == slice[p.0] {
      ImportPairAgrees(d, considering, p);
    }
    forall p | p in internalPairs ensures p.0 in slice && p.1 == slice[p.0] {
      InternalPairAgrees(d, considering, p);
    }
    var withImports := InsertPairs(map[], importPairs);
    assert ResolvedPairs(o.resolved, considering) == [];
    var r := InsertPairs(withImports, internalPairs);
    assert r == GetIndices(o, considering);
    forall b | b in slice ensures b in r {
      AssignSliceCovered(d, considering, b);
    }
  }

  // ---------------------------------------------------------------------------------------
  // Two modules that each define a function at old index 0.

  const ModuleA := ModuleName("A")
  const ModuleB := ModuleName("B")
  const NoArgs := FuncType([], [])

  /** Module A defines function 0, and so does module B; nothing is imported or exported. */
  function TwoLocalZeros(): SchemaParts {
    SchemaParts([], [], [FunctionSpec(ModuleA, NoArgs, 0), FunctionSpec(ModuleB, NoArgs, 0)], [])
  }

  lemma ModulesDiffer()
    ensures ModuleA != ModuleB
  {
    assert ModuleA.name[0] != ModuleB.name[0];
  }

  /** Draining A then B collects A's function, then B's. */
  lemma TwoLocalZerosDrained()
    ensures Drained(TwoLocalZeros(), [ModuleA, ModuleB])
            == SchemaParts([], [], [FunctionSpec(ModuleA, NoArgs, 0), FunctionSpec(ModuleB, NoArgs, 0)], [])
  {
    var fa, fb := FunctionSpec(ModuleA, NoArgs, 0), FunctionSpec(ModuleB, NoArgs, 0);
    var ms := [ModuleA, ModuleB];
    InternalDrained(fa, fb);
    DrainNothing([], ms, ImportOwner, ImportIndex);
    DrainNothing([], ms, ResolvedOwner, ResolvedIndex);
    DrainNothing([], ms, ExportOwner, ExportIndex);
    var d := Drained(TwoLocalZeros(), ms);
    assert d.unresolvedImports == [] && d.resolved == [] && d.unresolvedExports == [];
    assert d.internal == [fa, fb];
  }

  /** Draining A then B over the two defined functions returns them in that order. */
  lemma InternalDrained(fa: FunctionSpec<Before>, fb: FunctionSpec<Before>)
    requires fa.definingModule == ModuleA && fb.definingModule == ModuleB
    ensures Drain([fa, fb], [ModuleA, ModuleB], InternalOwner, InternalIndex).0 == [fa, fb]
  {
    ModulesDiffer();
    var (takenA, keptA) := RemoveSorted([fa, fb], ModuleA, InternalOwner, InternalIndex);
    assert fa in takenA && fb in keptA;
    assert |takenA| == 1 && |keptA| == 1 by {
      assert |multiset(takenA)| + |multiset(keptA)| == 2;
    }
    assert takenA == [fa];
    var (takenB, keptB) := RemoveSorted(keptA, ModuleB, InternalOwner, InternalIndex);
    assert fb in takenB;
    assert |takenB| == 1 && |keptB| == 0 by {
      assert |multiset(takenB)| + |multiset(keptB)| == 1;
    }
    assert takenB == [fb];
    assert Drain(keptA, [ModuleB], InternalOwner, InternalIndex).0 == takenB by {
      assert [ModuleB][1..] == [];
    }
    assert [ModuleA, ModuleB][1..] == [ModuleB];
  }

  /** Draining an empty collection collects nothing. */
  lemma DrainNothing<T>(s: seq<T>, ms: seq<ModuleName>, owner: T -> ModuleName, key: T -> nat)
    requires s == []
    ensures Drain(s, ms, owner, key).0 == []
  {
    assert |multiset(Drain(s, ms, owner, key).0)| == 0;
  }

  /** A's function gets the new index 0 and B's the new index 1. */
  lemma TwoLocalZerosAssigned()
    ensures AssignIdentities(TwoLocalZeros(), [ModuleA, ModuleB]).Success?
    ensures AssignIdentities(TwoLocalZeros(), [ModuleA, ModuleB]).value.unresolvedImports == []
    ensures AssignIdentities(TwoLocalZeros(), [ModuleA, ModuleB]).value.internal
            == [FunctionSpec(ModuleA, NoArgs, (0, 0)), FunctionSpec(ModuleB, NoArgs, (0, 1))]
    ensures AssignIdentities(TwoLocalZeros(), [ModuleA, ModuleB]).value.oldToNew[(ModuleA, 0)] == 0
  {
    TwoLocalZerosDrained();
    TwoZerosNumbered(Drained(TwoLocalZeros(), [ModuleA, ModuleB]));
  }

  /** Numbering the drained parts directly: nothing imported, A's function first. */
  lemma TwoZerosNumbered(d: SchemaParts)
    requires d == SchemaParts([], [], [FunctionSpec(ModuleA, NoArgs, 0), FunctionSpec(ModuleB, NoArgs, 0)], [])
    ensures Assign(d).Success?
    ensures Assign(d).value.unresolvedImports == []
    ensures Assign(d).value.internal == [FunctionSpec(ModuleA, NoArgs, (0, 0)), FunctionSpec(ModuleB, NoArgs, (0, 1))]
    ensures Assign(d).value.oldToNew[(ModuleA, 0)] == 0
  {
    ModulesDiffer();
    assert InternalKey(d.internal[0]) != InternalKey(d.internal[1]);
    assert KeySet(d.unresolvedImports, ImportKey) == {};
    assert DistinctKeys(d.internal, InternalKey);
    AssignOutcome(d);
    var o := Assign(d).value;
    assert OldInternal(o.internal[0]) == d.internal[0] && o.internal[0].index.1 == 0;
    assert OldInternal(o.internal[1]) == d.internal[1] && o.internal[1].index.1 == 1;
    assert o.oldToNew[InternalKey(d.internal[0])] == 0;
  }

  /** Numbering the two modules in order A, B gives A's function the new index 0 and B's the new
      index 1; `get_indices` as written then maps A's old index 0 to 1, B's function, while the
      corrected version maps it to 0. */
  lemma GetIndicesAsWrittenMixesModules()
    ensures AssignIdentities(TwoLocalZeros(), [ModuleA, ModuleB]).Success?
    ensures AssignIdentities(TwoLocalZeros(), [ModuleA, ModuleB]).value.oldToNew[(ModuleA, 0)] == 0
    ensures GetIndicesAsWritten(AssignIdentities(TwoLocalZeros(), [ModuleA, ModuleB]).value, "A")[0] == 1
    ensures GetIndices(AssignIdentities(TwoLocalZeros(), [ModuleA, ModuleB]).value, "A")[0] == 0
  {
    TwoLocalZerosAssigned();
    var o := AssignIdentities(TwoLocalZeros(), [ModuleA, ModuleB]).value;
    TwoZerosIndices(o);
  }

  /** Both versions of `get_indices` for module A over the numbered schema. */
  lemma TwoZerosIndices(o: OrderedSchema)
    requires o.unresolvedImports == [] && o.resolved == []
    requires o.internal == [FunctionSpec(ModuleA, NoArgs, (0, 0)), FunctionSpec(ModuleB, NoArgs, (0, 1))]
    ensures GetIndicesAsWritten(o, "A")[0] == 1
    ensures GetIndices(o, "A")[0] == 0
  {
    var empty: map<Before, After> := map[];
    assert ImportPairs(o.unresolvedImports, "A") == [];
    assert ResolvedPairs(o.resolved, "A") == [];
    assert InternalPairs(o.internal) == [(0, 0), (0, 1)];
    assert InsertPairs(empty, []) == empty;
    var tail := o.internal[1..];
    assert tail == [FunctionSpec(ModuleB, NoArgs, (0, 1))];
    assert tail[1..] == [];
    assert OwnInternalPairs(tail[1..], "A") == [];
    assert tail[0].definingModule.name != "A" by {
      assert tail[0].definingModule.name[0] != 'A';
    }
    assert OwnInternalPairs(tail, "A") == [];
    assert o.internal[0].definingModule.name == "A";
    assert OwnInternalPairs(o.internal, "A") == [(0, 0)];
  }
}
