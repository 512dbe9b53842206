/** The name-based resolution schema of functions: imports are matched to exports by module
    name and function name, every export's matched imports are split by type equality, and the
    exports that no import consumes are sorted into unresolved exports and name clashes. */
module ResolutionSchema {
  import opened Wrappers
  import opened Kinds
  import opened Collections

  datatype ModuleName = ModuleName(name: string)

  /** A function index of an input module (`Before<FunctionId>`). */
  type Before = nat

  /** `importing_module` imports `name` from `exporting_module` into its function slot `index`. */
  datatype ImportSpec<I> = ImportSpec(
    importingModule: ModuleName, exportingModule: ModuleName, name: string, ty: FuncType, index: I)

  /** A function that `definingModule` defines itself at `index`. */
  datatype FunctionSpec<I> = FunctionSpec(definingModule: ModuleName, ty: FuncType, index: I)

  /** `exporter` exports its function `index` under `name`. */
  datatype ExportSpec<I> = ExportSpec(exporter: ModuleName, name: string, ty: FuncType, index: I)

  /** An export together with the imports it satisfies. */
  datatype Resolved<I> = Resolved(exportSpecification: ExportSpec<I>, resolvedImports: seq<ImportSpec<I>>)

  /** An export together with the imports that name it but expect another type. */
  datatype TypeMismatch = TypeMismatch(exportSpecification: ExportSpec<Before>, resolvedImports: seq<ImportSpec<Before>>)

  /** The outcome of a successful validation. */
  datatype Schema<I(==)> = Schema(
    localFunctionSpecifications: set<FunctionSpec<I>>,
    resolved: set<Resolved<I>>,
    unresolvedExports: set<ExportSpec<I>>,
    unresolvedImports: set<ImportSpec<I>>)

  datatype ValidationFailure = ValidationFailure(
    typesMismatch: set<TypeMismatch>,
    nameClashes: map<string, set<ExportSpec<Before>>>,
    resolvedSchema: Schema<Before>)

  /** The specifications collected from all input modules. */
  datatype Builder = Builder(
    expectedImports: set<ImportSpec<Before>>,
    localFunctionSpecifications: set<FunctionSpec<Before>>,
    providedExports: set<ExportSpec<Before>>)

  /** `add_import`: inserting an import that is already present fails the insertion assertion. */
  function AddImport(b: Builder, spec: ImportSpec<Before>): (r: Result<Builder, Panic>)
    ensures r.Failure? <==> spec in b.expectedImports
    ensures r.Failure? ==> r.error == KeyAlreadyPresent
    ensures r.Success? ==> (r.value.expectedImports == b.expectedImports + {spec}
                          && r.value.expectedImports - {spec} == b.expectedImports
                          && r.value.localFunctionSpecifications == b.localFunctionSpecifications
                          && r.value.providedExports == b.providedExports)
  {
    if spec in b.expectedImports then Failure(KeyAlreadyPresent)
    else Success(b.(expectedImports := b.expectedImports + {spec}))
  }

  /** `add_local_function`: inserting a local function that is already present fails. */
  function AddLocalFunction(b: Builder, spec: FunctionSpec<Before>): (r: Result<Builder, Panic>)
    ensures r.Failure? <==> spec in b.localFunctionSpecifications
    ensures r.Failure? ==> r.error == KeyAlreadyPresent
    ensures r.Success? ==> (r.value.localFunctionSpecifications == b.localFunctionSpecifications + {spec}
                          && r.value.localFunctionSpecifications - {spec} == b.localFunctionSpecifications
                          && r.value.expectedImports == b.expectedImports
                          && r.value.providedExports == b.providedExports)
  {
    if spec in b.localFunctionSpecifications then Failure(KeyAlreadyPresent)
    else Success(b.(localFunctionSpecifications := b.localFunctionSpecifications + {spec}))
  }

  /** `add_export`: inserting an export that is already present fails. */
  function AddExport(b: Builder, spec: ExportSpec<Before>): (r: Result<Builder, Panic>)
    ensures r.Failure? <==> spec in b.providedExports
    ensures r.Failure? ==> r.error == KeyAlreadyPresent
    ensures r.Success? ==> (r.value.providedExports == b.providedExports + {spec}
                          && r.value.providedExports - {spec} == b.providedExports
                          && r.value.expectedImports == b.expectedImports
                          && r.value.localFunctionSpecifications == b.localFunctionSpecifications)
  {
    if spec in b.providedExports then Failure(KeyAlreadyPresent)
    else Success(b.(providedExports := b.providedExports + {spec}))
  }

  // ---------------------------------------------------------------------------------------
  // Matching imports to exports by name.

  /** The export is the one the import names: same module name, same function name. */
  predicate Matches(e: ExportSpec<Before>, i: ImportSpec<Before>) {
    e.exporter.name == i.exportingModule.name && e.name == i.name
  }

  /** The position of the first export in `exports` that the import names (`iter_mut().find`). */
  function FirstMatch(exports: seq<ExportSpec<Before>>, i: ImportSpec<Before>): (r: Option<nat>)
    ensures r.Some? ==> r.value < |exports| && Matches(exports[r.value], i)
    ensures r.Some? ==> forall j | 0 <= j < r.value :: !Matches(exports[j], i)
    ensures r.None? <==> forall j | 0 <= j < |exports| :: !Matches(exports[j], i)
  {
    if |exports| == 0 then None
    else if Matches(exports[0], i) then Some(0)
    else match FirstMatch(exports[1..], i)
      case None => None
      case Some(k) => Some(k + 1)
  }

  /** An export while imports are being attached to it. */
  datatype NameResolved = NameResolved(exportSpecification: ExportSpec<Before>, resolvedImports: seq<ImportSpec<Before>>)

  /** The imports, in iteration order, whose first matching export is `exports[k]`. */
  function AttachedTo(exports: seq<ExportSpec<Before>>, imports: seq<ImportSpec<Before>>, k: nat)
    : (r: seq<ImportSpec<Before>>)
    ensures forall i | i in r :: i in imports && FirstMatch(exports, i) == Some(k)
    ensures forall i | i in imports && FirstMatch(exports, i) == Some(k) :: i in r
    ensures |r| <= |imports|
  {
    if |imports| == 0 then []
    else
      var rest := AttachedTo(exports, imports[..|imports| - 1], k);
      var i := imports[|imports| - 1];
      if FirstMatch(exports, i) == Some(k) then rest + [i] else rest
  }

  /** The loop of `validate` over the imports: each import is attached to the first export it
      names, or becomes an unresolved import when it names none. */
  function MatchImports(exports: seq<ExportSpec<Before>>, imports: seq<ImportSpec<Before>>)
    : (r: (seq<NameResolved>, set<ImportSpec<Before>>))
    ensures |r.0| == |exports|
    ensures forall k | 0 <= k < |exports| ::
              r.0[k].exportSpecification == exports[k] && r.0[k].resolvedImports == AttachedTo(exports, imports, k)
    ensures forall i :: i in r.1 <==> i in imports && FirstMatch(exports, i).None?
  {
    if |imports| == 0 then
      (seq(|exports|, k requires 0 <= k < |exports| => NameResolved(exports[k], [])), {})
    else
      var (potential, unresolved) := MatchImports(exports, imports[..|imports| - 1]);
      var i := imports[|imports| - 1];
      match FirstMatch(exports, i)
      case Some(k) =>
        (potential[k := potential[k].(resolvedImports := potential[k].resolvedImports + [i])], unresolved)
      case None =>
        (potential, unresolved + {i})
  }

  // ---------------------------------------------------------------------------------------
  // Splitting an export's imports by type.

  datatype ResolveResult =
    | NoImportPresent(unresolved: ExportSpec<Before>)
    | AllImportsResolve(resolve: Resolved<Before>)
    | AllImportsMismatch(mismatch: TypeMismatch)
    | PartialResolvePartialMismatch(resolve: Resolved<Before>, mismatch: TypeMismatch)

  /** The loop of `attempt_resolve`: the imports whose type equals `ty`, and the others,
      each in iteration order. */
  function SplitByType(ty: FuncType, imports: seq<ImportSpec<Before>>)
    : (r: (seq<ImportSpec<Before>>, seq<ImportSpec<Before>>))
    ensures multiset(r.0) + multiset(r.1) == multiset(imports)
    ensures forall i | i in r.0 :: i.ty == ty
    ensures forall i | i in r.1 :: i.ty != ty
  {
    if |imports| == 0 then ([], [])
    else
      var (matching, mismatching) := SplitByType(ty, imports[..|imports| - 1]);
      var i := imports[|imports| - 1];
      assert imports == imports[..|imports| - 1] + [i];
      if i.ty == ty then (matching + [i], mismatching) else (matching, mismatching + [i])
  }

  /** The imports an attempt resolved (empty when none did). */
  function ResolvedPart(r: ResolveResult): seq<ImportSpec<Before>> {
    match r
    case AllImportsResolve(res) => res.resolvedImports
    case PartialResolvePartialMismatch(res, _) => res.resolvedImports
    case _ => []
  }

  /** The imports an attempt found mismatching (empty when none did). */
  function MismatchPart(r: ResolveResult): seq<ImportSpec<Before>> {
    match r
    case AllImportsMismatch(m) => m.resolvedImports
    case PartialResolvePartialMismatch(_, m) => m.resolvedImports
    case _ => []
  }

  /** The export an attempt is about, whichever case it ended in. */
  function ExportOf(r: ResolveResult): ExportSpec<Before> {
    match r
    case NoImportPresent(e) => e
    case AllImportsResolve(res) => res.exportSpecification
    case AllImportsMismatch(m) => m.exportSpecification
    case PartialResolvePartialMismatch(res, m) => res.exportSpecification
  }

  /** `NameResolved::attempt_resolve`. */
  function AttemptResolve(nr: NameResolved): (r: ResolveResult)
    // Nothing is lost or duplicated; the two parts are split by type equality.
    ensures multiset(ResolvedPart(r)) + multiset(MismatchPart(r)) == multiset(nr.resolvedImports)
    ensures forall i | i in ResolvedPart(r) :: i.ty == nr.exportSpecification.ty
    ensures forall i | i in MismatchPart(r) :: i.ty != nr.exportSpecification.ty
    // The case is fixed by which of the two parts is non-empty.
    ensures r.NoImportPresent? <==> |ResolvedPart(r)| == 0 && |MismatchPart(r)| == 0
    ensures r.AllImportsResolve? <==> |ResolvedPart(r)| > 0 && |MismatchPart(r)| == 0
    ensures r.AllImportsMismatch? <==> |ResolvedPart(r)| == 0 && |MismatchPart(r)| > 0
    ensures r.PartialResolvePartialMismatch? <==> |ResolvedPart(r)| > 0 && |MismatchPart(r)| > 0
    // Every part keeps the export it came from.
    ensures ExportOf(r) == nr.exportSpecification
    ensures r.PartialResolvePartialMismatch? ==> r.mismatch.exportSpecification == nr.exportSpecification
  {
    var e := nr.exportSpecification;
    var (matching, mismatching) := SplitByType(e.ty, nr.resolvedImports);
    if |matching| == 0 && |mismatching| == 0 then NoImportPresent(e)
    else if |mismatching| == 0 then AllImportsResolve(Resolved(e, matching))
    else if |matching| == 0 then AllImportsMismatch(TypeMismatch(e, mismatching))
    else PartialResolvePartialMismatch(Resolved(e, matching), TypeMismatch(e, mismatching))
  }

  /** Every import of the attempt lands in exactly one part, so the case is decided by the
      types of the imports themselves: none, all equal, all different, or some of each. */
  lemma AttemptResolveCases(nr: NameResolved)
    ensures AttemptResolve(nr).NoImportPresent? <==> |nr.resolvedImports| == 0
    ensures AttemptResolve(nr).AllImportsResolve? <==>
              |nr.resolvedImports| > 0 && forall i | i in nr.resolvedImports :: i.ty == nr.exportSpecification.ty
    ensures AttemptResolve(nr).AllImportsMismatch? <==>
              |nr.resolvedImports| > 0 && forall i | i in nr.resolvedImports :: i.ty != nr.exportSpecification.ty
    ensures AttemptResolve(nr).PartialResolvePartialMismatch? <==>
              (exists i | i in nr.resolvedImports :: i.ty == nr.exportSpecification.ty)
              && (exists i | i in nr.resolvedImports :: i.ty != nr.exportSpecification.ty)
  {
    var r := AttemptResolve(nr);
    var matching, mismatching := ResolvedPart(r), MismatchPart(r);
    PartsCover(nr.resolvedImports, matching, mismatching);
    if |matching| > 0 {
      assert matching[0] in nr.resolvedImports;
    }
    if |mismatching| > 0 {
      assert mismatching[0] in nr.resolvedImports;
    }
  }

  /** Two sequences whose multisets add up to a third hold exactly its elements between them. */
  lemma PartsCover<T>(all: seq<T>, a: seq<T>, b: seq<T>)
    requires multiset(a) + multiset(b) == multiset(all)
    ensures forall x | x in all :: x in a || x in b
    ensures forall x | x in a :: x in all
    ensures forall x | x in b :: x in all
    ensures |all| == 0 <==> |a| == 0 && |b| == 0
  {
    forall x | x in all ensures x in a || x in b {
      assert x in multiset(all);
    }
    forall x | x in a ensures x in all {
      assert multiset(all)[x] >= multiset(a)[x] > 0;
    }
    forall x | x in b ensures x in all {
      assert multiset(all)[x] >= multiset(b)[x] > 0;
    }
    assert |multiset(all)| == |multiset(a)| + |multiset(b)|;
  }

  /** The attached imports are a hash set, iterated in an order the code does not choose. That
      order fixes only the order inside the two parts: with the same imports in any other
      order, the attempt ends in the same case, with the same export and the same imports in
      each part. */
  lemma AttemptResolveAnyOrder(nr: NameResolved, order: seq<ImportSpec<Before>>)
    requires multiset(order) == multiset(nr.resolvedImports)
    ensures var a, b := AttemptResolve(nr), AttemptResolve(nr.(resolvedImports := order));
            && ExportOf(a) == ExportOf(b)
            && a.NoImportPresent? == b.NoImportPresent?
            && a.AllImportsResolve? == b.AllImportsResolve?
            && a.AllImportsMismatch? == b.AllImportsMismatch?
            && multiset(ResolvedPart(a)) == multiset(ResolvedPart(b))
            && multiset(MismatchPart(a)) == multiset(MismatchPart(b))
  {
    var a, b := AttemptResolve(nr), AttemptResolve(nr.(resolvedImports := order));
    SameSplit(nr.resolvedImports, ResolvedPart(a), MismatchPart(a), order, ResolvedPart(b), MismatchPart(b),
              nr.exportSpecification.ty);
  }

  /** Splitting two orders of the same imports by the same type gives parts with the same
      imports, hence of the same sizes. */
  lemma SameSplit(allA: seq<ImportSpec<Before>>, matchA: seq<ImportSpec<Before>>, mismatchA: seq<ImportSpec<Before>>,
                  allB: seq<ImportSpec<Before>>, matchB: seq<ImportSpec<Before>>, mismatchB: seq<ImportSpec<Before>>, ty: FuncType)
    requires multiset(allA) == multiset(allB)
    requires multiset(matchA) + multiset(mismatchA) == multiset(allA)
    requires forall i | i in matchA :: i.ty == ty
    requires forall i | i in mismatchA :: i.ty != ty
    requires multiset(matchB) + multiset(mismatchB) == multiset(allB)
    requires forall i | i in matchB :: i.ty == ty
    requires forall i | i in mismatchB :: i.ty != ty
    ensures multiset(matchA) == multiset(matchB) && |matchA| == |matchB|
    ensures multiset(mismatchA) == multiset(mismatchB) && |mismatchA| == |mismatchB|
  {
    PartByType(allA, matchA, mismatchA, ty);
    PartByType(allB, matchB, mismatchB, ty);
    assert multiset(matchA) == multiset(matchB);
    assert multiset(mismatchA) == multiset(mismatchB);
    assert |multiset(matchA)| == |multiset(matchB)|;
    assert |multiset(mismatchA)| == |multiset(mismatchB)|;
  }

  /** A split of `all` by type equality holds, of every import, all the copies of the type's
      side and none of the other side. */
  lemma PartByType(all: seq<ImportSpec<Before>>, matching: seq<ImportSpec<Before>>, mismatching: seq<ImportSpec<Before>>, ty: FuncType)
    requires multiset(matching) + multiset(mismatching) == multiset(all)
    requires forall i | i in matching :: i.ty == ty
    requires forall i | i in mismatching :: i.ty != ty
    ensures forall x :: multiset(matching)[x] == (if x.ty == ty then multiset(all)[x] else 0)
    ensures forall x :: multiset(mismatching)[x] == (if x.ty == ty then 0 else multiset(all)[x])
  {
    forall x ensures multiset(matching)[x] == (if x.ty == ty then multiset(all)[x] else 0)
                  && multiset(mismatching)[x] == (if x.ty == ty then 0 else multiset(all)[x])
    {
      assert multiset(matching)[x] + multiset(mismatching)[x] == multiset(all)[x];
      if x.ty == ty {
        assert x !in mismatching;
      } else {
        assert x !in matching;
      }
    }
  }

  // ---------------------------------------------------------------------------------------
  // Sorting the attempts into resolved, mismatching and unresolved exports.

  /** The outcome of the loop of `validate` over the attempts. */
  datatype Classified = Classified(
    unresolvedExports: seq<ExportSpec<Before>>,
    resolved: set<Resolved<Before>>,
    typesMismatch: set<TypeMismatch>)

  /** Some import attached to the export expects another type. */
  predicate HasMismatch(nr: NameResolved) {
    exists i | i in nr.resolvedImports :: i.ty != nr.exportSpecification.ty
  }

  /** No two attempts are about the same export. */
  predicate DistinctExports(ps: seq<NameResolved>) {
    forall j, k | 0 <= j < k < |ps| :: ps[j].exportSpecification != ps[k].exportSpecification
  }

  /** One turn of the loop of `validate`: file the outcome of one attempt. */
  function ClassifyStep(c: Classified, a: ResolveResult): Classified {
    match a
    case NoImportPresent(e) => c.(unresolvedExports := c.unresolvedExports + [e])
    case AllImportsResolve(res) => c.(resolved := c.resolved + {res})
    case AllImportsMismatch(m) => c.(typesMismatch := c.typesMismatch + {m})
    case PartialResolvePartialMismatch(res, m) =>
      c.(resolved := c.resolved + {res}, typesMismatch := c.typesMismatch + {m})
  }

  /** The loop of `validate` over the attempts, in order: exports without imports are collected
      in order, resolved and mismatching parts go to their sets. */
  function Classify(ps: seq<NameResolved>): (r: Classified)
    ensures |r.unresolvedExports| <= |ps|
  {
    if |ps| == 0 then Classified([], {}, {})
    else ClassifyStep(Classify(ps[..|ps| - 1]), AttemptResolve(ps[|ps| - 1]))
  }

  /** An attempt attaches no import exactly when its export ends up unresolved. */
  lemma AttemptResolveNone(nr: NameResolved)
    ensures AttemptResolve(nr).NoImportPresent? <==> |nr.resolvedImports| == 0
    ensures AttemptResolve(nr).NoImportPresent? ==> AttemptResolve(nr).unresolved == nr.exportSpecification
  {
    var r := AttemptResolve(nr);
    PartsCover(nr.resolvedImports, ResolvedPart(r), MismatchPart(r));
  }

  /** Classifying one more attempt appends its export exactly when it attached no import. */
  lemma ClassifySnoc(ps: seq<NameResolved>, nr: NameResolved)
    ensures Classify(ps + [nr]).unresolvedExports
            == Classify(ps).unresolvedExports + (if |nr.resolvedImports| == 0 then [nr.exportSpecification] else [])
  {
    assert (ps + [nr])[..|ps|] == ps;
    AttemptResolveNone(nr);
  }

  /** The unresolved exports are exactly the exports of the attempts that attached no import. */
  lemma {:induction false} ClassifyUnresolved(ps: seq<NameResolved>)
    ensures forall e | e in Classify(ps).unresolvedExports ::
              exists k | 0 <= k < |ps| :: |ps[k].resolvedImports| == 0 && ps[k].exportSpecification == e
    ensures forall k | 0 <= k < |ps| && |ps[k].resolvedImports| == 0 ::
              ps[k].exportSpecification in Classify(ps).unresolvedExports
  {
    if |ps| > 0 {
      var prefix, nr := ps[..|ps| - 1], ps[|ps| - 1];
      assert ps == prefix + [nr];
      ClassifyUnresolved(prefix);
      ClassifySnoc(prefix, nr);
      assert forall k | 0 <= k < |prefix| :: prefix[k] == ps[k];
    }
  }

  /** Attempts about distinct exports yield unresolved exports without repetition. */
  lemma {:induction false} ClassifyDistinct(ps: seq<NameResolved>)
    requires DistinctExports(ps)
    ensures NoDuplicates(Classify(ps).unresolvedExports)
  {
    if |ps| > 0 {
      var prefix, nr := ps[..|ps| - 1], ps[|ps| - 1];
      assert ps == prefix + [nr];
      assert DistinctExports(prefix);
      ClassifyDistinct(prefix);
      ClassifyUnresolved(prefix);
      ClassifySnoc(prefix, nr);
      forall k | 0 <= k < |prefix| ensures prefix[k].exportSpecification != nr.exportSpecification {
        assert prefix[k] == ps[k];
      }
      assert nr.exportSpecification !in Classify(prefix).unresolvedExports;
    }
  }

  /** An attempt yields a type mismatch exactly when some attached import expects another type. */
  lemma AttemptResolveMismatch(nr: NameResolved)
    ensures HasMismatch(nr) <==> (AttemptResolve(nr).AllImportsMismatch? || AttemptResolve(nr).PartialResolvePartialMismatch?)
  {
    var r := AttemptResolve(nr);
    PartsCover(nr.resolvedImports, ResolvedPart(r), MismatchPart(r));
    if |MismatchPart(r)| > 0 {
      assert MismatchPart(r)[0] in nr.resolvedImports;
    }
  }

  /** Classifying one more attempt leaves the mismatch set empty exactly when it was empty and the
      attempt has no mismatching import. */
  lemma ClassifyMismatchSnoc(ps: seq<NameResolved>, nr: NameResolved)
    ensures |Classify(ps + [nr]).typesMismatch| == 0 <==> |Classify(ps).typesMismatch| == 0 && !HasMismatch(nr)
  {
    assert (ps + [nr])[..|ps|] == ps;
    AttemptResolveMismatch(nr);
    var a := AttemptResolve(nr);
    if a.AllImportsMismatch? || a.PartialResolvePartialMismatch? {
      assert a.mismatch in Classify(ps + [nr]).typesMismatch;
    }
  }

  /** The set of type mismatches is empty exactly when no attempt found an import of another type. */
  lemma {:induction false} ClassifyMismatchEmpty(ps: seq<NameResolved>)
    ensures |Classify(ps).typesMismatch| == 0 <==> forall k | 0 <= k < |ps| :: !HasMismatch(ps[k])
  {
    if |ps| > 0 {
      var prefix, nr := ps[..|ps| - 1], ps[|ps| - 1];
      assert ps == prefix + [nr];
      ClassifyMismatchEmpty(prefix);
      ClassifyMismatchSnoc(prefix, nr);
      if forall k | 0 <= k < |ps| :: !HasMismatch(ps[k]) {
        forall k | 0 <= k < |prefix| ensures !HasMismatch(prefix[k]) {
          assert prefix[k] == ps[k];
        }
      } else {
        var k :| 0 <= k < |ps| && HasMismatch(ps[k]);
        if k < |prefix| {
          assert prefix[k] == ps[k];
        }
      }
    }
  }

  /** The imports of an attempt whose type equals the export's, in iteration order. */
  function TypeMatching(nr: NameResolved): seq<ImportSpec<Before>> {
    SplitByType(nr.exportSpecification.ty, nr.resolvedImports).0
  }

  /** The imports of an attempt that expect another type than the export's, in iteration order. */
  function TypeMismatching(nr: NameResolved): seq<ImportSpec<Before>> {
    SplitByType(nr.exportSpecification.ty, nr.resolvedImports).1
  }

  /** An attempt files a resolved entry exactly when some import has the export's type, and the
      entry pairs the export with those imports; likewise for a mismatch and the other imports. */
  lemma AttemptResolveEntries(nr: NameResolved)
    ensures (AttemptResolve(nr).AllImportsResolve? || AttemptResolve(nr).PartialResolvePartialMismatch?)
            <==> |TypeMatching(nr)| > 0
    ensures (AttemptResolve(nr).AllImportsResolve? || AttemptResolve(nr).PartialResolvePartialMismatch?)
            ==> AttemptResolve(nr).resolve == Resolved(nr.exportSpecification, TypeMatching(nr))
    ensures (AttemptResolve(nr).AllImportsMismatch? || AttemptResolve(nr).PartialResolvePartialMismatch?)
            <==> |TypeMismatching(nr)| > 0
    ensures (AttemptResolve(nr).AllImportsMismatch? || AttemptResolve(nr).PartialResolvePartialMismatch?)
            ==> AttemptResolve(nr).mismatch == TypeMismatch(nr.exportSpecification, TypeMismatching(nr))
  {
  }

  /** Classifying one more attempt adds its resolved entry and its mismatch, when it has them. */
  lemma ClassifyEntriesSnoc(ps: seq<NameResolved>, nr: NameResolved)
    ensures Classify(ps + [nr]).resolved
            == Classify(ps).resolved
               + (if |TypeMatching(nr)| > 0 then {Resolved(nr.exportSpecification, TypeMatching(nr))} else {})
    ensures Classify(ps + [nr]).typesMismatch
            == Classify(ps).typesMismatch
               + (if |TypeMismatching(nr)| > 0 then {TypeMismatch(nr.exportSpecification, TypeMismatching(nr))} else {})
  {
    assert (ps + [nr])[..|ps|] == ps;
    AttemptResolveEntries(nr);
  }

  /** The resolved entry an attempt files: the export paired with its imports of the same type. */
  predicate ResolvedFrom(nr: NameResolved, r: Resolved<Before>) {
    |TypeMatching(nr)| > 0 && r == Resolved(nr.exportSpecification, TypeMatching(nr))
  }

  /** The mismatch an attempt files: the export paired with its imports of other types. */
  predicate MismatchFrom(nr: NameResolved, m: TypeMismatch) {
    |TypeMismatching(nr)| > 0 && m == TypeMismatch(nr.exportSpecification, TypeMismatching(nr))
  }

  /** The resolved set holds, for every attempt with an import of the export's type, the export
      paired with exactly those imports, and nothing else. */
  lemma {:induction false} ClassifyResolved(ps: seq<NameResolved>, r: Resolved<Before>)
    ensures r in Classify(ps).resolved <==> exists k | 0 <= k < |ps| :: ResolvedFrom(ps[k], r)
  {
    if |ps| > 0 {
      var prefix, nr := ps[..|ps| - 1], ps[|ps| - 1];
      assert ps == prefix + [nr];
      ClassifyResolved(prefix, r);
      ClassifyEntriesSnoc(prefix, nr);
      if r in Classify(ps).resolved {
        if r !in Classify(prefix).resolved {
          assert ResolvedFrom(ps[|ps| - 1], r);
        } else {
          var k :| 0 <= k < |prefix| && ResolvedFrom(prefix[k], r);
          assert prefix[k] == ps[k];
        }
      }
      if exists k | 0 <= k < |ps| :: ResolvedFrom(ps[k], r) {
        var k :| 0 <= k < |ps| && ResolvedFrom(ps[k], r);
        if k < |prefix| {
          assert prefix[k] == ps[k];
        }
      }
    }
  }

  /** The mismatch set holds, for every attempt with an import of another type than the
      export's, the export paired with exactly those imports, and nothing else. */
  lemma {:induction false} ClassifyMismatch(ps: seq<NameResolved>, m: TypeMismatch)
    ensures m in Classify(ps).typesMismatch <==> exists k | 0 <= k < |ps| :: MismatchFrom(ps[k], m)
  {
    if |ps| > 0 {
      var prefix, nr := ps[..|ps| - 1], ps[|ps| - 1];
      assert ps == prefix + [nr];
      ClassifyMismatch(prefix, m);
      ClassifyEntriesSnoc(prefix, nr);
      if m in Classify(ps).typesMismatch {
        if m !in Classify(prefix).typesMismatch {
          assert MismatchFrom(ps[|ps| - 1], m);
        } else {
          var k :| 0 <= k < |prefix| && MismatchFrom(prefix[k], m);
          assert prefix[k] == ps[k];
        }
      }
      if exists k | 0 <= k < |ps| :: MismatchFrom(ps[k], m) {
        var k :| 0 <= k < |ps| && MismatchFrom(ps[k], m);
        if k < |prefix| {
          assert prefix[k] == ps[k];
        }
      }
    }
  }

  // ---------------------------------------------------------------------------------------
  // Name clashes among the unresolved exports.

  /** What the fold remembers about a name: the one export seen with it, or that there were several. */
  datatype Encountered = First(earlier: ExportSpec<Before>) | EncounteredBefore

  /** The exports of `s` carrying the name `n`. */
  function Named(s: seq<ExportSpec<Before>>, n: string): set<ExportSpec<Before>> {
    set e | e in s && e.name == n
  }

  lemma NamedSnoc(s: seq<ExportSpec<Before>>, e: ExportSpec<Before>, n: string)
    ensures Named(s + [e], n) == Named(s, n) + (if e.name == n then {e} else {})
  {
  }

  /** What `export_names` and `name_clashes` hold after the exports `s` have been folded in:
      a name is known once an export carries it; it maps to that export while it is the only
      one, and otherwise is marked as seen before and has all its exports listed as clashing. */
  ghost predicate ClashInvariant(s: seq<ExportSpec<Before>>, names: map<string, Encountered>,
                                 clashes: map<string, set<ExportSpec<Before>>>) {
    NamesInvariant(s, names) && ClashesInvariant(s, names, clashes)
  }

  ghost predicate NamesInvariant(s: seq<ExportSpec<Before>>, names: map<string, Encountered>) {
    && (forall e | e in s :: e.name in names)
    && (forall n | n in names :: Named(s, n) != {})
    && (forall n | n in names && names[n].First? :: Named(s, n) == {names[n].earlier})
    && (forall n | n in names && names[n].EncounteredBefore? :: |Named(s, n)| >= 2)
  }

  ghost predicate ClashesInvariant(s: seq<ExportSpec<Before>>, names: map<string, Encountered>, clashes: map<string, set<ExportSpec<Before>>>) {
    && (forall n | n in clashes :: n in names && names[n].EncounteredBefore?)
    && (forall n | n in names && names[n].EncounteredBefore? :: n in clashes)
    && (forall n | n in clashes :: clashes[n] == Named(s, n))
  }

  /** One iteration of the loop over the unresolved exports. */
  function ClashStep(names: map<string, Encountered>, clashes: map<string, set<ExportSpec<Before>>>,
                     e: ExportSpec<Before>): (map<string, Encountered>, map<string, set<ExportSpec<Before>>>) {
    var n := e.name;
    if n in names then
      match names[n]
      case First(earlier) => (names[n := EncounteredBefore], clashes[n := {earlier, e}])
      case EncounteredBefore =>
        (names[n := EncounteredBefore], if n in clashes then clashes[n := clashes[n] + {e}] else clashes)
    else
      (names[n := First(e)], clashes)
  }

  lemma ClashStepKeeps(prefix: seq<ExportSpec<Before>>, e: ExportSpec<Before>,
                       names: map<string, Encountered>, clashes: map<string, set<ExportSpec<Before>>>)
    requires e !in prefix
    requires ClashInvariant(prefix, names, clashes)
    ensures ClashInvariant(prefix + [e], ClashStep(names, clashes, e).0, ClashStep(names, clashes, e).1)
  {
    var n := e.name;
    if n !in names {
      ClashStepNew(prefix, e, names, clashes);
    } else if names[n].First? {
      ClashStepSecond(prefix, e, names, clashes);
    } else {
      ClashStepLater(prefix, e, names, clashes);
    }
  }

  /** Named(prefix + [e], m) grows by `e` exactly for the name of `e`. */
  lemma ClashStepNew(prefix: seq<ExportSpec<Before>>, e: ExportSpec<Before>,
                     names: map<string, Encountered>, clashes: map<string, set<ExportSpec<Before>>>)
    requires e !in prefix && e.name !in names
    requires ClashInvariant(prefix, names, clashes)
    ensures ClashInvariant(prefix + [e], names[e.name := First(e)], clashes)
  {
    ClashStepNewNames(prefix, e, names);
    var s := prefix + [e];
    forall n | n in clashes ensures clashes[n] == Named(s, n) {
      NamedSnoc(prefix, e, n);
    }
  }

  lemma ClashStepNewNames(prefix: seq<ExportSpec<Before>>, e: ExportSpec<Before>, names: map<string, Encountered>)
    requires e !in prefix && e.name !in names
    requires NamesInvariant(prefix, names)
    ensures NamesInvariant(prefix + [e], names[e.name := First(e)])
  {
    var s, names' := prefix + [e], names[e.name := First(e)];
    NamedSnoc(prefix, e, e.name);
    assert Named(prefix, e.name) == {};
    assert e in Named(s, e.name);
    forall x | x in s ensures x.name in names' {
      assert x in prefix || x == e;
    }
    forall n | n in names' ensures Named(s, n) != {} && (names'[n].First? ==> Named(s, n) == {names'[n].earlier})
      && (names'[n].EncounteredBefore? ==> |Named(s, n)| >= 2) {
      NamedSnoc(prefix, e, n);
      if n != e.name {
        SubsetCardinality(Named(prefix, n), Named(s, n));
      }
    }
  }

  lemma ClashStepSecond(prefix: seq<ExportSpec<Before>>, e: ExportSpec<Before>,
                        names: map<string, Encountered>, clashes: map<string, set<ExportSpec<Before>>>)
    requires e !in prefix && e.name in names && names[e.name].First?
    requires ClashInvariant(prefix, names, clashes)
    ensures ClashInvariant(prefix + [e], names[e.name := EncounteredBefore],
                           clashes[e.name := {names[e.name].earlier, e}])
  {
    var earlier := names[e.name].earlier;
    ClashStepSecondNames(prefix, e, names);
    var s, clashes' := prefix + [e], clashes[e.name := {earlier, e}];
    forall n | n in clashes' ensures clashes'[n] == Named(s, n) {
      NamedSnoc(prefix, e, n);
    }
  }

  lemma ClashStepSecondNames(prefix: seq<ExportSpec<Before>>, e: ExportSpec<Before>, names: map<string, Encountered>)
    requires e !in prefix && e.name in names && names[e.name].First?
    requires NamesInvariant(prefix, names)
    ensures Named(prefix + [e], e.name) == {names[e.name].earlier, e}
    ensures NamesInvariant(prefix + [e], names[e.name := EncounteredBefore])
  {
    var s, names' := prefix + [e], names[e.name := EncounteredBefore];
    var earlier := names[e.name].earlier;
    NamedSnoc(prefix, e, e.name);
    assert earlier in Named(prefix, e.name);
    assert Named(s, e.name) == {earlier, e};
    forall x | x in s ensures x.name in names' {
      assert x in prefix || x == e;
    }
    forall n | n in names' ensures Named(s, n) != {} && (names'[n].First? ==> Named(s, n) == {names'[n].earlier})
      && (names'[n].EncounteredBefore? ==> |Named(s, n)| >= 2) {
      NamedSnoc(prefix, e, n);
      if n != e.name {
        SubsetCardinality(Named(prefix, n), Named(s, n));
      }
    }
  }

  lemma ClashStepLater(prefix: seq<ExportSpec<Before>>, e: ExportSpec<Before>,
                       names: map<string, Encountered>, clashes: map<string, set<ExportSpec<Before>>>)
    requires e !in prefix && e.name in names && names[e.name].EncounteredBefore?
    requires ClashInvariant(prefix, names, clashes)
    ensures ClashInvariant(prefix + [e], names, clashes[e.name := clashes[e.name] + {e}])
  {
    ClashStepLaterNames(prefix, e, names);
    var s, clashes' := prefix + [e], clashes[e.name := clashes[e.name] + {e}];
    forall n | n in clashes' ensures clashes'[n] == Named(s, n) {
      NamedSnoc(prefix, e, n);
    }
  }

  lemma ClashStepLaterNames(prefix: seq<ExportSpec<Before>>, e: ExportSpec<Before>, names: map<string, Encountered>)
    requires e !in prefix && e.name in names && names[e.name].EncounteredBefore?
    requires NamesInvariant(prefix, names)
    ensures NamesInvariant(prefix + [e], names)
  {
    var s := prefix + [e];
    forall x | x in s ensures x.name in names {
      assert x in prefix || x == e;
    }
    forall n | n in names ensures Named(s, n) != {} && (names[n].First? ==> Named(s, n) == {names[n].earlier})
      && (names[n].EncounteredBefore? ==> |Named(s, n)| >= 2) {
      NamedSnoc(prefix, e, n);
      SubsetCardinality(Named(prefix, n), Named(s, n));
    }
  }

  /** The loop of `validate` over the unresolved exports: `export_names` and `name_clashes`. */
  function ClashFold(s: seq<ExportSpec<Before>>): (r: (map<string, Encountered>, map<string, set<ExportSpec<Before>>>))
    requires NoDuplicates(s)
    ensures ClashInvariant(s, r.0, r.1)
  {
    if |s| == 0 then (map[], map[])
    else
      var prefix := s[..|s| - 1];
      var e := s[|s| - 1];
      assert s == prefix + [e];
      var (names, clashes) := ClashFold(prefix);
      ClashStepKeeps(prefix, e, names, clashes);
      ClashStep(names, clashes, e)
  }

  /** Reading off a finished fold: a name clashes exactly when at least two exports carry it,
      and its clash set lists them all. */
  lemma ClashFoldClashes(s: seq<ExportSpec<Before>>, n: string)
    requires NoDuplicates(s)
    ensures n in ClashFold(s).1 <==> |Named(s, n)| >= 2
    ensures n in ClashFold(s).1 ==> ClashFold(s).1[n] == Named(s, n)
  {
    var (names, clashes) := ClashFold(s);
    if |Named(s, n)| >= 2 {
      var e :| e in Named(s, n);
      assert e in s;
      assert n in names;
    }
  }

  /** Reading off a finished fold: the exports remembered as `First` are those alone with their name. */
  lemma ClashFoldFirsts(s: seq<ExportSpec<Before>>)
    requires NoDuplicates(s)
    ensures forall e :: e in FirstsOf(ClashFold(s).0) <==> e in s && Named(s, e.name) == {e}
  {
    var names := ClashFold(s).0;
    forall e ensures e in FirstsOf(names) <==> e in s && Named(s, e.name) == {e} {
      if e in FirstsOf(names) {
        var n :| n in names && names[n].First? && names[n].earlier == e;
        assert e in Named(s, n);
      }
      if e in s && Named(s, e.name) == {e} {
        assert e.name in names;
        assert |Named(s, e.name)| == 1;
      }
    }
  }

  /** The exports the fold remembers as the only one of their name. */
  function FirstsOf(names: map<string, Encountered>): (r: set<ExportSpec<Before>>)
    ensures forall n | n in names && names[n].First? :: names[n].earlier in r
  {
    set n | n in names && names[n].First? :: names[n].earlier
  }

  // ---------------------------------------------------------------------------------------
  // Validation.

  /** The schema a validation produced, whether it succeeded or not. */
  function SchemaOf(r: Result<Schema<Before>, ValidationFailure>): Schema<Before> {
    match r
    case Success(schema) => schema
    case Failure(f) => f.resolvedSchema
  }

  /** `validate`: attach every import to the first export it names, split every export's
      imports by type, and sort the exports no import consumes into those alone with their
      name and name clashes. The iteration orders of the two hash sets are parameters. */
  function Validate(b: Builder, importOrder: seq<ImportSpec<Before>>, exportOrder: seq<ExportSpec<Before>>)
    : (r: Result<Schema<Before>, ValidationFailure>)
    requires IsEnumeration(importOrder, b.expectedImports)
    requires IsEnumeration(exportOrder, b.providedExports)
    ensures SchemaOf(r).localFunctionSpecifications == b.localFunctionSpecifications
    ensures forall i :: i in SchemaOf(r).unresolvedImports <==> i in b.expectedImports && FirstMatch(exportOrder, i).None?
  {
    var (ps, unresolvedImports) := MatchImports(exportOrder, importOrder);
    assert DistinctExports(ps);
    ClassifyAndClash(b.localFunctionSpecifications, ps, unresolvedImports)
  }

  /** The part of `validate` after matching: classify every export, then sort the unresolved
      ones by name. The local functions and the unresolved imports pass through. */
  function ClassifyAndClash(locals: set<FunctionSpec<Before>>, ps: seq<NameResolved>, unresolvedImports: set<ImportSpec<Before>>)
    : (r: Result<Schema<Before>, ValidationFailure>)
    requires DistinctExports(ps)
    ensures SchemaOf(r).localFunctionSpecifications == locals
    ensures SchemaOf(r).unresolvedImports == unresolvedImports
    ensures SchemaOf(r).resolved == Classify(ps).resolved
    ensures r.Failure? ==> r.error.typesMismatch == Classify(ps).typesMismatch
  {
    var c := Classify(ps);
    ClassifyDistinct(ps);
    var (names, clashes) := ClashFold(c.unresolvedExports);
    Outcome(Schema(locals, c.resolved, FirstsOf(names), unresolvedImports), c.typesMismatch, clashes)
  }

  /** The end of `validate`: success exactly when nothing was collected in either failure list;
      the schema is reported either way. */
  function Outcome(schema: Schema<Before>, typesMismatch: set<TypeMismatch>, nameClashes: map<string, set<ExportSpec<Before>>>)
    : (r: Result<Schema<Before>, ValidationFailure>)
    ensures SchemaOf(r) == schema
    ensures r.Success? <==> |typesMismatch| == 0 && |nameClashes| == 0
    ensures r.Failure? ==> r.error.typesMismatch == typesMismatch && r.error.nameClashes == nameClashes
  {
    if |typesMismatch| == 0 && |nameClashes| == 0 then Success(schema)
    else Failure(ValidationFailure(typesMismatch, nameClashes, schema))
  }

  /** Some import of `imports` has `exports[k]` as the first export it names. */
  ghost predicate Consumes(exports: seq<ExportSpec<Before>>, imports: set<ImportSpec<Before>>, k: nat) {
    exists i | i in imports :: FirstMatch(exports, i) == Some(k)
  }

  /** The exports that no import consumes. */
  ghost function Unconsumed(exports: seq<ExportSpec<Before>>, imports: set<ImportSpec<Before>>): set<ExportSpec<Before>> {
    set k | 0 <= k < |exports| && !Consumes(exports, imports, k) :: exports[k]
  }

  /** Every import has the type of the first export it names. */
  ghost predicate TypesAgree(exports: seq<ExportSpec<Before>>, imports: set<ImportSpec<Before>>) {
    forall i, k | i in imports && FirstMatch(exports, i) == Some(k) :: k < |exports| && i.ty == exports[k].ty
  }

  /** No two distinct exports of `u` share a name. */
  ghost predicate NoNameClash(u: set<ExportSpec<Before>>) {
    forall e1, e2 | e1 in u && e2 in u && e1.name == e2.name :: e1 == e2
  }

  /** The exports of `u` named `n`. */
  ghost function NamedIn(u: set<ExportSpec<Before>>, n: string): set<ExportSpec<Before>> {
    set e | e in u && e.name == n
  }

  /** An export is left without imports exactly when no import consumes it. */
  lemma MatchImportsUnconsumed(exports: seq<ExportSpec<Before>>, order: seq<ImportSpec<Before>>, imports: set<ImportSpec<Before>>)
    requires IsEnumeration(order, imports)
    ensures forall e :: e in Classify(MatchImports(exports, order).0).unresolvedExports <==> e in Unconsumed(exports, imports)
  {
    var ps := MatchImports(exports, order).0;
    ClassifyUnresolved(ps);
    forall k | 0 <= k < |exports| ensures |ps[k].resolvedImports| == 0 <==> !Consumes(exports, imports, k) {
      if |ps[k].resolvedImports| > 0 {
        assert ps[k].resolvedImports[0] in AttachedTo(exports, order, k);
      }
      if Consumes(exports, imports, k) {
        var i :| i in imports && FirstMatch(exports, i) == Some(k);
        assert i in order;
        assert i in ps[k].resolvedImports;
      }
    }
  }

  /** No type mismatch is collected exactly when every import has the type of the export it names. */
  lemma MatchImportsTypesAgree(exports: seq<ExportSpec<Before>>, order: seq<ImportSpec<Before>>, imports: set<ImportSpec<Before>>)
    requires IsEnumeration(order, imports)
    ensures |Classify(MatchImports(exports, order).0).typesMismatch| == 0 <==> TypesAgree(exports, imports)
  {
    var ps := MatchImports(exports, order).0;
    ClassifyMismatchEmpty(ps);
    if TypesAgree(exports, imports) {
      forall k | 0 <= k < |ps| ensures !HasMismatch(ps[k]) {
        forall i | i in ps[k].resolvedImports ensures i.ty == ps[k].exportSpecification.ty {
          assert i in AttachedTo(exports, order, k);
        }
      }
    } else {
      var i, k :| i in imports && FirstMatch(exports, i) == Some(k) && i.ty != exports[k].ty;
      assert i in order;
      assert i in ps[k].resolvedImports;
      assert HasMismatch(ps[k]);
    }
  }

  /** A set of at least two elements holds two distinct ones. */
  lemma TwoElements<T>(u: set<T>)
    requires |u| >= 2
    ensures exists x, y | x in u && y in u :: x != y
  {
    var x :| x in u;
    assert |u - {x}| >= 1;
    var y :| y in u - {x};
  }

  /** A clash found by the fold is a pair of distinct folded exports sharing a name. */
  lemma ClashFoldFound(s: seq<ExportSpec<Before>>, u: set<ExportSpec<Before>>)
    requires NoDuplicates(s)
    requires forall e :: e in s <==> e in u
    requires |ClashFold(s).1| > 0
    ensures !NoNameClash(u)
  {
    var n :| n in ClashFold(s).1;
    ClashFoldClashes(s, n);
    TwoElements(Named(s, n));
    var e1, e2 :| e1 in Named(s, n) && e2 in Named(s, n) && e1 != e2;
    assert e1 in s && e2 in s;
    assert e1 in u && e2 in u;
  }

  /** Two distinct folded exports sharing a name make the fold report a clash. */
  lemma ClashFoldReports(s: seq<ExportSpec<Before>>, u: set<ExportSpec<Before>>)
    requires NoDuplicates(s)
    requires forall e :: e in s <==> e in u
    requires !NoNameClash(u)
    ensures |ClashFold(s).1| > 0
  {
    var e1, e2 :| e1 in u && e2 in u && e1.name == e2.name && e1 != e2;
    assert e1 in s && e2 in s;
    var named := Named(s, e1.name);
    assert e1 in named && e2 in named;
    SubsetCardinality({e1, e2}, named);
    ClashFoldClashes(s, e1.name);
  }

  /** The fold finds no clash exactly when no two of the folded exports share a name. */
  lemma ClashFoldEmptyIff(s: seq<ExportSpec<Before>>, u: set<ExportSpec<Before>>)
    requires NoDuplicates(s)
    requires forall e :: e in s <==> e in u
    ensures |ClashFold(s).1| == 0 <==> NoNameClash(u)
  {
    if |ClashFold(s).1| > 0 {
      ClashFoldFound(s, u);
    }
    if !NoNameClash(u) {
      ClashFoldReports(s, u);
    }
  }

  /** `validate` succeeds exactly when every import has the type of the export it names and no
      two exports that no import consumes share a name. */
  lemma ValidateOkIff(b: Builder, importOrder: seq<ImportSpec<Before>>, exportOrder: seq<ExportSpec<Before>>)
    requires IsEnumeration(importOrder, b.expectedImports)
    requires IsEnumeration(exportOrder, b.providedExports)
    ensures Validate(b, importOrder, exportOrder).Success?
            <==> TypesAgree(exportOrder, b.expectedImports) && NoNameClash(Unconsumed(exportOrder, b.expectedImports))
  {
    var ps := MatchImports(exportOrder, importOrder).0;
    assert DistinctExports(ps);
    ClassifyDistinct(ps);
    MatchImportsUnconsumed(exportOrder, importOrder, b.expectedImports);
    MatchImportsTypesAgree(exportOrder, importOrder, b.expectedImports);
    ClashFoldEmptyIff(Classify(ps).unresolvedExports, Unconsumed(exportOrder, b.expectedImports));
  }

  /** The imports whose first matching export is `exports[k]` and that have its type, in
      iteration order. */
  function MatchingAt(exports: seq<ExportSpec<Before>>, imports: seq<ImportSpec<Before>>, k: nat): seq<ImportSpec<Before>>
    requires k < |exports|
  {
    SplitByType(exports[k].ty, AttachedTo(exports, imports, k)).0
  }

  /** The imports whose first matching export is `exports[k]` and that expect another type,
      in iteration order. */
  function MismatchingAt(exports: seq<ExportSpec<Before>>, imports: seq<ImportSpec<Before>>, k: nat): seq<ImportSpec<Before>>
    requires k < |exports|
  {
    SplitByType(exports[k].ty, AttachedTo(exports, imports, k)).1
  }

  /** The schema's resolved set pairs every export that some import of its type names first with
      exactly those imports, and holds nothing else. */
  lemma ValidateResolved(b: Builder, importOrder: seq<ImportSpec<Before>>, exportOrder: seq<ExportSpec<Before>>,
                         r: Resolved<Before>)
    requires IsEnumeration(importOrder, b.expectedImports)
    requires IsEnumeration(exportOrder, b.providedExports)
    ensures r in SchemaOf(Validate(b, importOrder, exportOrder)).resolved
            <==> exists k | 0 <= k < |exportOrder| ::
                   |MatchingAt(exportOrder, importOrder, k)| > 0
                   && r == Resolved(exportOrder[k], MatchingAt(exportOrder, importOrder, k))
  {
    var ps := MatchImports(exportOrder, importOrder).0;
    assert DistinctExports(ps);
    ClassifyResolved(ps, r);
    forall k | 0 <= k < |ps|
      ensures ResolvedFrom(ps[k], r)
              <==> |MatchingAt(exportOrder, importOrder, k)| > 0 && r == Resolved(exportOrder[k], MatchingAt(exportOrder, importOrder, k))
    {
      assert TypeMatching(ps[k]) == MatchingAt(exportOrder, importOrder, k);
    }
  }

  /** A failed validation reports, for every export that some import of another type names
      first, the export paired with exactly those imports, and nothing else. */
  lemma ValidateTypesMismatch(b: Builder, importOrder: seq<ImportSpec<Before>>, exportOrder: seq<ExportSpec<Before>>,
                              m: TypeMismatch)
    requires IsEnumeration(importOrder, b.expectedImports)
    requires IsEnumeration(exportOrder, b.providedExports)
    ensures Validate(b, importOrder, exportOrder).Failure? ==>
              (m in Validate(b, importOrder, exportOrder).error.typesMismatch
               <==> exists k | 0 <= k < |exportOrder| ::
                      |MismatchingAt(exportOrder, importOrder, k)| > 0
                      && m == TypeMismatch(exportOrder[k], MismatchingAt(exportOrder, importOrder, k)))
  {
    var ps := MatchImports(exportOrder, importOrder).0;
    assert DistinctExports(ps);
    ClassifyMismatch(ps, m);
    forall k | 0 <= k < |ps|
      ensures MismatchFrom(ps[k], m)
              <==> |MismatchingAt(exportOrder, importOrder, k)| > 0 && m == TypeMismatch(exportOrder[k], MismatchingAt(exportOrder, importOrder, k))
    {
      assert TypeMismatching(ps[k]) == MismatchingAt(exportOrder, importOrder, k);
    }
  }

  /** The type-matching part of a split is empty exactly when no import has the type. */
  lemma SplitMatchingNonEmpty(ty: FuncType, imports: seq<ImportSpec<Before>>)
    ensures |SplitByType(ty, imports).0| > 0 <==> exists i | i in imports :: i.ty == ty
    ensures |SplitByType(ty, imports).1| > 0 <==> exists i | i in imports :: i.ty != ty
  {
    var (matching, mismatching) := SplitByType(ty, imports);
    PartsCover(imports, matching, mismatching);
    if |matching| > 0 {
      assert matching[0] in imports;
    }
    if |mismatching| > 0 {
      assert mismatching[0] in imports;
    }
  }

  /** `exportOrder[k]` has an entry in the schema's resolved set exactly when some import names
      it first and has its type. */
  lemma ValidateResolvedExport(b: Builder, importOrder: seq<ImportSpec<Before>>, exportOrder: seq<ExportSpec<Before>>, k: nat)
    requires IsEnumeration(importOrder, b.expectedImports)
    requires IsEnumeration(exportOrder, b.providedExports)
    requires k < |exportOrder|
    ensures (exists r | r in SchemaOf(Validate(b, importOrder, exportOrder)).resolved :: r.exportSpecification == exportOrder[k])
            <==> exists i | i in b.expectedImports :: FirstMatch(exportOrder, i) == Some(k) && i.ty == exportOrder[k].ty
  {
    var resolved := SchemaOf(Validate(b, importOrder, exportOrder)).resolved;
    var attached := AttachedTo(exportOrder, importOrder, k);
    SplitMatchingNonEmpty(exportOrder[k].ty, attached);
    if exists r | r in resolved :: r.exportSpecification == exportOrder[k] {
      var r :| r in resolved && r.exportSpecification == exportOrder[k];
      ValidateResolved(b, importOrder, exportOrder, r);
      var j :| 0 <= j < |exportOrder| && |MatchingAt(exportOrder, importOrder, j)| > 0
               && r == Resolved(exportOrder[j], MatchingAt(exportOrder, importOrder, j));
      assert j == k;
      var i :| i in attached && i.ty == exportOrder[k].ty;
      assert i in b.expectedImports;
    }
    if exists i | i in b.expectedImports :: FirstMatch(exportOrder, i) == Some(k) && i.ty == exportOrder[k].ty {
      var i :| i in b.expectedImports && FirstMatch(exportOrder, i) == Some(k) && i.ty == exportOrder[k].ty;
      assert i in importOrder;
      assert i in attached;
      var r := Resolved(exportOrder[k], MatchingAt(exportOrder, importOrder, k));
      ValidateResolved(b, importOrder, exportOrder, r);
      assert r in resolved;
    }
  }

  /** A folded sequence and a set with the same elements have the same exports of each name. */
  lemma NamedSame(s: seq<ExportSpec<Before>>, u: set<ExportSpec<Before>>, n: string)
    requires forall e :: e in s <==> e in u
    ensures Named(s, n) == NamedIn(u, n)
  {
  }

  /** The unresolved exports of the schema are the unconsumed exports alone with their name. */
  lemma ValidateUnresolvedExports(b: Builder, importOrder: seq<ImportSpec<Before>>, exportOrder: seq<ExportSpec<Before>>,
                                  e: ExportSpec<Before>)
    requires IsEnumeration(importOrder, b.expectedImports)
    requires IsEnumeration(exportOrder, b.providedExports)
    ensures e in SchemaOf(Validate(b, importOrder, exportOrder)).unresolvedExports
            <==> e in Unconsumed(exportOrder, b.expectedImports) && NamedIn(Unconsumed(exportOrder, b.expectedImports), e.name) == {e}
  {
    var ps := MatchImports(exportOrder, importOrder).0;
    assert DistinctExports(ps);
    ClassifyDistinct(ps);
    var s := Classify(ps).unresolvedExports;
    MatchImportsUnconsumed(exportOrder, importOrder, b.expectedImports);
    ClashFoldFirsts(s);
    NamedSame(s, Unconsumed(exportOrder, b.expectedImports), e.name);
  }

  /** A failed validation lists, for every name carried by two or more unconsumed exports,
      exactly those exports as a clash, and no other name. */
  lemma ValidateNameClashes(b: Builder, importOrder: seq<ImportSpec<Before>>, exportOrder: seq<ExportSpec<Before>>, n: string)
    requires IsEnumeration(importOrder, b.expectedImports)
    requires IsEnumeration(exportOrder, b.providedExports)
    ensures Validate(b, importOrder, exportOrder).Failure? ==>
              (n in Validate(b, importOrder, exportOrder).error.nameClashes
               <==> |NamedIn(Unconsumed(exportOrder, b.expectedImports), n)| >= 2)
    ensures Validate(b, importOrder, exportOrder).Failure? && n in Validate(b, importOrder, exportOrder).error.nameClashes
            ==> Validate(b, importOrder, exportOrder).error.nameClashes[n] == NamedIn(Unconsumed(exportOrder, b.expectedImports), n)
  {
    var ps := MatchImports(exportOrder, importOrder).0;
    assert DistinctExports(ps);
    ClassifyDistinct(ps);
    var s := Classify(ps).unresolvedExports;
    MatchImportsUnconsumed(exportOrder, importOrder, b.expectedImports);
    ClashFoldClashes(s, n);
    NamedSame(s, Unconsumed(exportOrder, b.expectedImports), n);
  }
}
