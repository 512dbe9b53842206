/** The resolver front end (`merge_builder::Resolver`): `consider` turns every parsed module
    into the import, local and export nodes of four per-kind resolvers, and `resolve` links,
    checks and reduces each kind in turn. The per-kind resolvers' own operations (adding
    nodes, `link_nodes`, the clash and type checks) are not part of this model: adding a node
    appends it, and the outcomes of the checks are inputs. */
module MergeBuilder {
  import opened Wrappers
  import opened Kinds
  import opened MergeOptions
  import opened ResolverNodes
  import opened DependencyReduction
  import opened Errors

  // ---------------------------------------------------------------------------------------
  // A parsed module, as far as `consider` reads it. Every walrus id is an index into the
  // arena of its kind.

  datatype WasmImportKind = FuncImport(func: nat) | TableImport(table: nat) | MemoryImport(memory: nat) | GlobalImport(global: nat)

  /** An entry of the import section: `module` and `name`, and the item it declares. */
  datatype WasmImport = WasmImport(fromModule: string, name: string, kind: WasmImportKind)

  datatype WasmFunctionKind = LocalFunction(args: seq<nat>) | ImportedFunction | UninitializedFunction

  /** A function: its type id in the type arena and its kind; a local function lists the
      local ids of its arguments. */
  datatype WasmFunction = WasmFunction(typeId: nat, kind: WasmFunctionKind)

  datatype WasmGlobal = WasmGlobal(valType: ValType, imported: bool)

  datatype WasmTable = WasmTable(elementTy: ValType, imported: bool)

  datatype WasmExport = WasmExport(name: string, kind: ExportKind, index: nat)

  /** A parsed module with the name it was given; `memories` says of every memory whether it
      is imported, `locals` is the arena of local variables' value types. */
  datatype ParsedModule = ParsedModule(
    name: string, types: seq<ArenaType>, imports: seq<WasmImport>, funcs: seq<WasmFunction>,
    globals: seq<WasmGlobal>, memories: seq<bool>, tables: seq<WasmTable>, exports: seq<WasmExport>,
    locals: seq<ValType>)

  /** The kind an import declares, and its id in that kind's arena. */
  function ImportTarget(k: WasmImportKind): (ExportKind, nat) {
    match k
    case FuncImport(f) => (FunctionKind, f)
    case TableImport(t) => (TableKind, t)
    case MemoryImport(x) => (MemoryKind, x)
    case GlobalImport(g) => (GlobalKind, g)
  }

  /** The size of a kind's arena. */
  function ArenaSize(m: ParsedModule, kind: ExportKind): nat {
    match kind
    case FunctionKind => |m.funcs|
    case TableKind => |m.tables|
    case MemoryKind => |m.memories|
    case GlobalKind => |m.globals|
  }

  /** walrus hands out ids only for items of the module's own arenas. */
  predicate ValidIds(m: ParsedModule) {
    && (forall f | 0 <= f < |m.funcs| :: m.funcs[f].typeId < |m.types|)
    && (forall f | 0 <= f < |m.funcs| && m.funcs[f].kind.LocalFunction? ::
          forall a | 0 <= a < |m.funcs[f].kind.args| :: m.funcs[f].kind.args[a] < |m.locals|)
    && (forall j | 0 <= j < |m.imports| :: ImportTarget(m.imports[j].kind).1 < ArenaSize(m, ImportTarget(m.imports[j].kind).0))
    && (forall j | 0 <= j < |m.exports| :: m.exports[j].index < ArenaSize(m, m.exports[j].kind))
  }

  /** The type the resolver attaches to the item `id` of a kind: a function's signature read
      from the type arena, a table's element type, nothing for a memory, a global's value type. */
  function ArenaTypes(m: ParsedModule, kind: ExportKind): (r: seq<ItemType>)
    requires ValidIds(m)
    ensures |r| == ArenaSize(m, kind)
  {
    match kind
    case FunctionKind => seq(|m.funcs|, f requires 0 <= f < |m.funcs| => FuncTy(FromTypes(m.funcs[f].typeId, m.types)))
    case TableKind => seq(|m.tables|, t requires 0 <= t < |m.tables| => TableTy(m.tables[t].elementTy))
    case MemoryKind => seq(|m.memories|, _ => MemoryTy)
    case GlobalKind => seq(|m.globals|, g requires 0 <= g < |m.globals| => GlobalTy(m.globals[g].valType))
  }

  // ---------------------------------------------------------------------------------------
  // Node construction

  /** `import_from`: the considered module imports `name` from `module` into slot `index`. */
  function ImportFrom<Kind>(i: WasmImport, considering: IdentifierModule, index: OldId, ty: ItemType): Import<Kind> {
    Import(IdentifierModule(i.fromModule), considering, IdentifierItem(i.name), index, ty)
  }

  /** `local_from`. */
  function LocalFrom<Kind>(considering: IdentifierModule, index: OldId, ty: ItemType, data: seq<LocalEntry>): Local<Kind> {
    Local(considering, index, ty, data)
  }

  /** `export_from`: the considered module exports its item `index` under the export's name. */
  function ExportFrom<Kind>(e: WasmExport, considering: IdentifierModule, index: OldId, ty: ItemType): Export<Kind> {
    Export(considering, IdentifierItem(e.name), index, ty)
  }

  /** The import nodes of one kind, in import-section order. */
  function ImportsOf<Kind>(considering: IdentifierModule, kind: ExportKind, arena: seq<ItemType>, xs: seq<WasmImport>)
    : (r: seq<Import<Kind>>)
    requires forall j | 0 <= j < |xs| && ImportTarget(xs[j].kind).0 == kind :: ImportTarget(xs[j].kind).1 < |arena|
    ensures forall x | x in r :: x.importingModule == considering
    ensures |r| <= |xs|
    decreases |xs|
  {
    if |xs| == 0 then []
    else
      var last := xs[|xs| - 1];
      var (k, id) := ImportTarget(last.kind);
      var init := ImportsOf(considering, kind, arena, xs[..|xs| - 1]);
      if k == kind then init + [ImportFrom(last, considering, id, arena[id])] else init
  }

  /** The import nodes of a kind are exactly the kind's imports of the section, each with the
      considered module as importer, the section's module and name as exporter and identifier,
      its own id as slot and its arena type. */
  lemma {:induction false} ImportsOfIff<Kind>(considering: IdentifierModule, kind: ExportKind, arena: seq<ItemType>, xs: seq<WasmImport>, x: Import<Kind>)
    requires forall j | 0 <= j < |xs| && ImportTarget(xs[j].kind).0 == kind :: ImportTarget(xs[j].kind).1 < |arena|
    ensures x in ImportsOf(considering, kind, arena, xs)
            <==> exists j | 0 <= j < |xs| && ImportTarget(xs[j].kind).0 == kind ::
                   x == ImportFrom(xs[j], considering, ImportTarget(xs[j].kind).1, arena[ImportTarget(xs[j].kind).1])
    decreases |xs|
  {
    if |xs| > 0 {
      var init := xs[..|xs| - 1];
      ImportsOfIff(considering, kind, arena, init, x);
      assert forall j | 0 <= j < |init| :: init[j] == xs[j];
    }
  }

  /** The local nodes of a kind whose items carry no data: every item that is not imported,
      in id order. */
  function PlainLocalsOf<Kind>(considering: IdentifierModule, arena: seq<ItemType>, imported: seq<bool>): (r: seq<Local<Kind>>)
    requires |imported| == |arena|
    ensures forall x | x in r :: x.owner == considering && x.data == []
    ensures |r| <= |arena|
    decreases |arena|
  {
    if |arena| == 0 then []
    else
      var id := |arena| - 1;
      var init := PlainLocalsOf(considering, arena[..id], imported[..id]);
      if imported[id] then init else init + [LocalFrom(considering, id, arena[id], [])]
  }

  /** Only the items that are not imported become locals, each under its own id and type. */
  lemma {:induction false} PlainLocalsOfIff<Kind>(considering: IdentifierModule, arena: seq<ItemType>, imported: seq<bool>, x: Local<Kind>)
    requires |imported| == |arena|
    ensures x in PlainLocalsOf(considering, arena, imported)
            <==> x.owner == considering && x.data == [] && x.index < |arena| && !imported[x.index] && x.ty == arena[x.index]
    decreases |arena|
  {
    if |arena| > 0 {
      var id := |arena| - 1;
      PlainLocalsOfIff(considering, arena[..id], imported[..id], x);
    }
  }

  /** The arguments of a local function with the value types the locals arena gives them. */
  function Arguments(m: ParsedModule, args: seq<nat>): (r: seq<LocalEntry>)
    requires forall a | 0 <= a < |args| :: args[a] < |m.locals|
    ensures |r| == |args|
    ensures forall a | 0 <= a < |args| :: r[a] == LocalEntry(args[a], m.locals[args[a]])
  {
    seq(|args|, a requires 0 <= a < |args| => LocalEntry(args[a], m.locals[args[a]]))
  }

  /** The function loop of `consider` over the first `n` functions: a local function becomes a
      local node carrying its arguments, an imported one adds nothing, and an uninitialized
      one aborts with `ComponentModelUnsupported` naming the module. */
  function FunctionLocalsOf(m: ParsedModule, considering: IdentifierModule, n: nat): (r: Result<seq<Local<Function>>, Error>)
    requires ValidIds(m) && n <= |m.funcs|
    ensures r.Success? <==> forall f | 0 <= f < n :: !m.funcs[f].kind.UninitializedFunction?
    ensures r.Failure? ==> r.error == ComponentModelUnsupported(considering.name)
    decreases n
  {
    if n == 0 then Success([])
    else
      var init :- FunctionLocalsOf(m, considering, n - 1);
      var f := m.funcs[n - 1];
      match f.kind
      case LocalFunction(args) =>
        Success(init + [LocalFrom(considering, n - 1, FuncTy(FromTypes(f.typeId, m.types)), Arguments(m, args))])
      case ImportedFunction => Success(init)
      case UninitializedFunction => Failure(ComponentModelUnsupported(considering.name))
  }

  /** The function loop fails exactly when some function is uninitialized; otherwise its nodes
      are exactly the local functions, each under its id with its signature and arguments. */
  lemma {:induction false} FunctionLocalsOfIff(m: ParsedModule, considering: IdentifierModule, n: nat, x: Local<Function>)
    requires ValidIds(m) && n <= |m.funcs|
    ensures FunctionLocalsOf(m, considering, n).Success? ==>
              (x in FunctionLocalsOf(m, considering, n).value
               <==> && x.owner == considering && x.index < n && m.funcs[x.index].kind.LocalFunction?
                    && x.ty == FuncTy(FromTypes(m.funcs[x.index].typeId, m.types))
                    && x.data == Arguments(m, m.funcs[x.index].kind.args))
    decreases n
  {
    if n > 0 {
      FunctionLocalsOfIff(m, considering, n - 1, x);
    }
  }

  /** The export nodes of one kind, in export-section order. */
  function ExportsOf<Kind>(considering: IdentifierModule, kind: ExportKind, arena: seq<ItemType>, xs: seq<WasmExport>)
    : (r: seq<Export<Kind>>)
    requires forall j | 0 <= j < |xs| && xs[j].kind == kind :: xs[j].index < |arena|
    ensures forall x | x in r :: x.owner == considering
    decreases |xs|
  {
    if |xs| == 0 then []
    else
      var last := xs[|xs| - 1];
      var init := ExportsOf(considering, kind, arena, xs[..|xs| - 1]);
      if last.kind == kind then init + [ExportFrom(last, considering, last.index, arena[last.index])] else init
  }

  /** The export nodes of a kind are exactly the section's exports of that kind, each under its
      own name, index and arena type. */
  lemma {:induction false} ExportsOfIff<Kind>(considering: IdentifierModule, kind: ExportKind, arena: seq<ItemType>, xs: seq<WasmExport>, x: Export<Kind>)
    requires forall j | 0 <= j < |xs| && xs[j].kind == kind :: xs[j].index < |arena|
    ensures x in ExportsOf(considering, kind, arena, xs)
            <==> exists j | 0 <= j < |xs| && xs[j].kind == kind :: x == ExportFrom(xs[j], considering, xs[j].index, arena[xs[j].index])
    decreases |xs|
  {
    if |xs| > 0 {
      var init := xs[..|xs| - 1];
      ExportsOfIff(considering, kind, arena, init, x);
      assert forall j | 0 <= j < |init| :: init[j] == xs[j];
    }
  }

  // ---------------------------------------------------------------------------------------
  // `consider`

  /** The nodes a per-kind resolver has been given so far. */
  datatype KindResolver<Kind> = KindResolver(imports: seq<Import<Kind>>, locals: seq<Local<Kind>>, exports: seq<Export<Kind>>)

  datatype Resolver = Resolver(
    functions: KindResolver<Function>, tables: KindResolver<Table>,
    memories: KindResolver<Memory>, globals: KindResolver<Global>)

  /** `Resolver::new`. */
  function NewResolver(): (r: Resolver)
    ensures r.functions.imports == [] && r.functions.locals == [] && r.functions.exports == []
    ensures r.globals.imports == [] && r.globals.locals == [] && r.globals.exports == []
  {
    Resolver(KindResolver([], [], []), KindResolver([], [], []), KindResolver([], [], []), KindResolver([], [], []))
  }

  /** Append nodes to a per-kind resolver. */
  function Extend<Kind>(k: KindResolver<Kind>, imports: seq<Import<Kind>>, locals: seq<Local<Kind>>, exports: seq<Export<Kind>>)
    : KindResolver<Kind>
  {
    KindResolver(k.imports + imports, k.locals + locals, k.exports + exports)
  }

  function GlobalsImported(m: ParsedModule): (r: seq<bool>)
    ensures |r| == |m.globals|
  {
    seq(|m.globals|, g requires 0 <= g < |m.globals| => m.globals[g].imported)
  }

  function TablesImported(m: ParsedModule): (r: seq<bool>)
    ensures |r| == |m.tables|
  {
    seq(|m.tables|, t requires 0 <= t < |m.tables| => m.tables[t].imported)
  }

  lemma ImportsFit(m: ParsedModule, kind: ExportKind)
    requires ValidIds(m)
    ensures forall j | 0 <= j < |m.imports| && ImportTarget(m.imports[j].kind).0 == kind ::
              ImportTarget(m.imports[j].kind).1 < |ArenaTypes(m, kind)|
    ensures forall j | 0 <= j < |m.exports| && m.exports[j].kind == kind :: m.exports[j].index < |ArenaTypes(m, kind)|
  {
  }

  /** `consider`: the module's imports, locals and exports are handed to the resolver of their
      kind. Imports are added first, then local functions, globals, memories and tables, then
      exports; an uninitialized function aborts the whole module. Each kind's nodes keep the
      order of their section. */
  function Consider(res: Resolver, m: ParsedModule): (r: Result<Resolver, Error>)
    requires ValidIds(m)
    ensures r.Failure? <==> exists f | 0 <= f < |m.funcs| :: m.funcs[f].kind.UninitializedFunction?
    ensures r.Failure? ==> r.error == ComponentModelUnsupported(m.name)
  {
    var considering := IdentifierModule(m.name);
    ImportsFit(m, FunctionKind);
    ImportsFit(m, TableKind);
    ImportsFit(m, MemoryKind);
    ImportsFit(m, GlobalKind);
    var functionLocals :- FunctionLocalsOf(m, considering, |m.funcs|);
    Success(Resolver(
      Extend(res.functions,
             ImportsOf(considering, FunctionKind, ArenaTypes(m, FunctionKind), m.imports),
             functionLocals,
             ExportsOf(considering, FunctionKind, ArenaTypes(m, FunctionKind), m.exports)),
      Extend(res.tables,
             ImportsOf(considering, TableKind, ArenaTypes(m, TableKind), m.imports),
             PlainLocalsOf(considering, ArenaTypes(m, TableKind), TablesImported(m)),
             ExportsOf(considering, TableKind, ArenaTypes(m, TableKind), m.exports)),
      Extend(res.memories,
             ImportsOf(considering, MemoryKind, ArenaTypes(m, MemoryKind), m.imports),
             PlainLocalsOf(considering, ArenaTypes(m, MemoryKind), m.memories),
             ExportsOf(considering, MemoryKind, ArenaTypes(m, MemoryKind), m.exports)),
      Extend(res.globals,
             ImportsOf(considering, GlobalKind, ArenaTypes(m, GlobalKind), m.imports),
             PlainLocalsOf(considering, ArenaTypes(m, GlobalKind), GlobalsImported(m)),
             ExportsOf(considering, GlobalKind, ArenaTypes(m, GlobalKind), m.exports))))
  }

  /** After `consider`, a function import node is one the resolver had before or one made
      from a function import of the module, with that module as importer. */
  lemma ConsiderFunctionImports(res: Resolver, m: ParsedModule, x: Import<Function>)
    requires ValidIds(m) && Consider(res, m).Success?
    ensures x in Consider(res, m).value.functions.imports
            <==> || x in res.functions.imports
                 || exists j | 0 <= j < |m.imports| && m.imports[j].kind.FuncImport? ::
                      x == ImportFrom(m.imports[j], IdentifierModule(m.name), m.imports[j].kind.func,
                                      FuncTy(FromTypes(m.funcs[m.imports[j].kind.func].typeId, m.types)))
  {
    var considering := IdentifierModule(m.name);
    ImportsFit(m, FunctionKind);
    ImportsOfIff(considering, FunctionKind, ArenaTypes(m, FunctionKind), m.imports, x);
  }

  /** After `consider`, a global local node is one the resolver had before or one made from a
      global of the module that is not imported. */
  lemma ConsiderGlobalLocals(res: Resolver, m: ParsedModule, x: Local<Global>)
    requires ValidIds(m) && Consider(res, m).Success?
    ensures x in Consider(res, m).value.globals.locals
            <==> || x in res.globals.locals
                 || (&& x.owner == IdentifierModule(m.name) && x.data == [] && x.index < |m.globals|
                     && !m.globals[x.index].imported && x.ty == GlobalTy(m.globals[x.index].valType))
  {
    PlainLocalsOfIff(IdentifierModule(m.name), ArenaTypes(m, GlobalKind), GlobalsImported(m), x);
  }

  /** After `consider`, a function local node is one the resolver had before or one made from
      a local function of the module, carrying its arguments. */
  lemma ConsiderFunctionLocals(res: Resolver, m: ParsedModule, x: Local<Function>)
    requires ValidIds(m) && Consider(res, m).Success?
    ensures x in Consider(res, m).value.functions.locals
            <==> || x in res.functions.locals
                 || (&& x.owner == IdentifierModule(m.name) && x.index < |m.funcs| && m.funcs[x.index].kind.LocalFunction?
                     && x.ty == FuncTy(FromTypes(m.funcs[x.index].typeId, m.types))
                     && x.data == Arguments(m, m.funcs[x.index].kind.args))
  {
    FunctionLocalsOfIff(m, IdentifierModule(m.name), |m.funcs|, x);
  }

  /** After `consider`, a table export node is one the resolver had before or one made from a
      table export of the module, typed with the table's element type. */
  lemma ConsiderTableExports(res: Resolver, m: ParsedModule, x: Export<Table>)
    requires ValidIds(m) && Consider(res, m).Success?
    ensures x in Consider(res, m).value.tables.exports
            <==> || x in res.tables.exports
                 || exists j | 0 <= j < |m.exports| && m.exports[j].kind == TableKind ::
                      x == ExportFrom(m.exports[j], IdentifierModule(m.name), m.exports[j].index,
                                      TableTy(m.tables[m.exports[j].index].elementTy))
  {
    ImportsFit(m, TableKind);
    ExportsOfIff(IdentifierModule(m.name), TableKind, ArenaTypes(m, TableKind), m.exports, x);
  }

  // ---------------------------------------------------------------------------------------
  // `resolve`

  /** What the per-kind resolver's own code (not part of this model) reports: whether
      `link_nodes` succeeded, whether `clashing_signal` and `type_check_mismatch_signal` would
      fail, the linked graph as the clash and type policies leave it, and the clashing exports. */
  datatype KindChecks<Kind> = KindChecks(
    linked: bool, clashes: bool, mismatches: bool, graph: Graph<Kind>,
    clashing: set<ExportIdentifier<IdentifierItem<Kind>>>)

  /** `resolve_functions` and its three siblings: a link failure is an import cycle; then
      clashes are signalled or renamed; then type mismatches are signalled or broken; finally
      the dependencies are reduced, keeping the kind's `keep_exports` set. */
  function ResolveKind<Kind>(c: KindChecks<Kind>, options: Options, keep: Option<set<ExportIdentifier<IdentifierItem<Kind>>>>)
    : (r: Result<ReducedDependencies<Kind>, Error>)
    requires WellFormed(c.graph) && AllReachSources(c.graph)
    ensures r.Success? ==> r.value.remainingExports == RemainingExports(c.graph, keep)
    ensures r.Success? ==> r.value.remainingImports == RemainingImports(c.graph)
  {
    if !c.linked then Failure(ImportCycle)
    else if options.clashingExports.Signal? && c.clashes then Failure(ExportNameClash)
    else if options.linkTypeMismatch.Signal? && c.mismatches then Failure(TypeMismatch)
    else Success(ReduceDependencies(c.graph, keep, c.clashing))
  }

  /** The checks run in order and the first that fails decides the error: an import cycle
      whatever the policies; a name clash only under the signalling clash policy; a type
      mismatch only under the signalling mismatch policy and only when no signalled clash
      came first. With renaming and ignoring, only a link failure can stop a kind. */
  lemma ResolveKindOutcome<Kind>(c: KindChecks<Kind>, options: Options, keep: Option<set<ExportIdentifier<IdentifierItem<Kind>>>>)
    requires WellFormed(c.graph) && AllReachSources(c.graph)
    ensures ResolveKind(c, options, keep) == Failure(ImportCycle) <==> !c.linked
    ensures ResolveKind(c, options, keep) == Failure(ExportNameClash)
            <==> c.linked && options.clashingExports.Signal? && c.clashes
    ensures ResolveKind(c, options, keep) == Failure(TypeMismatch)
            <==> c.linked && !(options.clashingExports.Signal? && c.clashes) && options.linkTypeMismatch.Signal? && c.mismatches
    ensures options.clashingExports.Rename? && options.linkTypeMismatch.Ignore? ==>
              (ResolveKind(c, options, keep).Success? <==> c.linked)
  {
  }

  /** The kind's `keep_exports` set, when one was given. */
  function FunctionKeep(options: Options): Option<set<ExportIdentifier<IdentifierFunction>>> {
    if options.keepExports.Some? then Some(options.keepExports.value.Functions()) else None
  }

  function TableKeep(options: Options): Option<set<ExportIdentifier<IdentifierTable>>> {
    if options.keepExports.Some? then Some(options.keepExports.value.Tables()) else None
  }

  function MemoryKeep(options: Options): Option<set<ExportIdentifier<IdentifierMemory>>> {
    if options.keepExports.Some? then Some(options.keepExports.value.Memories()) else None
  }

  function GlobalKeep(options: Options): Option<set<ExportIdentifier<IdentifierGlobal>>> {
    if options.keepExports.Some? then Some(options.keepExports.value.Globals()) else None
  }

  /** `AllReducedDependencies`. */
  datatype AllReduced = AllReduced(
    functions: ReducedDependencies<Function>, tables: ReducedDependencies<Table>,
    memories: ReducedDependencies<Memory>, globals: ReducedDependencies<Global>)

  /** All four kinds' checks, in resolution order. */
  datatype AllChecks = AllChecks(
    functions: KindChecks<Function>, tables: KindChecks<Table>, memories: KindChecks<Memory>, globals: KindChecks<Global>)

  ghost predicate AllTerminate(c: AllChecks) {
    && WellFormed(c.functions.graph) && AllReachSources(c.functions.graph)
    && WellFormed(c.tables.graph) && AllReachSources(c.tables.graph)
    && WellFormed(c.memories.graph) && AllReachSources(c.memories.graph)
    && WellFormed(c.globals.graph) && AllReachSources(c.globals.graph)
  }

  /** `resolve`: functions, tables, memories and globals, in that order; the first error aborts. */
  function Resolve(c: AllChecks, options: Options): (r: Result<AllReduced, Error>)
    requires AllTerminate(c)
  {
    var functions :- ResolveKind(c.functions, options, FunctionKeep(options));
    var tables :- ResolveKind(c.tables, options, TableKeep(options));
    var memories :- ResolveKind(c.memories, options, MemoryKeep(options));
    var globals :- ResolveKind(c.globals, options, GlobalKeep(options));
    Success(AllReduced(functions, tables, memories, globals))
  }

  /** `resolve` succeeds exactly when every kind does; otherwise it reports the error of the
      first failing kind in the order functions, tables, memories, globals, whatever the later
      kinds would have reported. On success each kind's exports were reduced with that kind's
      own `keep_exports` set. */
  lemma ResolveFirstError(c: AllChecks, options: Options)
    requires AllTerminate(c)
    ensures Resolve(c, options).Success?
            <==> && ResolveKind(c.functions, options, FunctionKeep(options)).Success?
                 && ResolveKind(c.tables, options, TableKeep(options)).Success?
                 && ResolveKind(c.memories, options, MemoryKeep(options)).Success?
                 && ResolveKind(c.globals, options, GlobalKeep(options)).Success?
    ensures ResolveKind(c.functions, options, FunctionKeep(options)).Failure? ==>
              Resolve(c, options) == Failure(ResolveKind(c.functions, options, FunctionKeep(options)).error)
    ensures ResolveKind(c.functions, options, FunctionKeep(options)).Success?
            && ResolveKind(c.tables, options, TableKeep(options)).Failure? ==>
              Resolve(c, options) == Failure(ResolveKind(c.tables, options, TableKeep(options)).error)
    ensures ResolveKind(c.functions, options, FunctionKeep(options)).Success?
            && ResolveKind(c.tables, options, TableKeep(options)).Success?
            && ResolveKind(c.memories, options, MemoryKeep(options)).Failure? ==>
              Resolve(c, options) == Failure(ResolveKind(c.memories, options, MemoryKeep(options)).error)
    ensures Resolve(c, options).Success? ==>
              && Resolve(c, options).value.functions.remainingExports == RemainingExports(c.functions.graph, FunctionKeep(options))
              && Resolve(c, options).value.globals.remainingExports == RemainingExports(c.globals.graph, GlobalKeep(options))
  {
  }
}
