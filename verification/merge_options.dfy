/** The user-facing options of a merge: what to do with clashing export names and with
    type mismatches between a matched import and export, and which exports to keep. */
module MergeOptions {
  import opened Wrappers
  import opened Kinds

  /** What happens to exports that some import of the merge group consumes. */
  datatype ResolvedExports = Remove | Keep

  /** An export named by the module that exports it and its export name. */
  datatype ExportIdentifier<KindName> = ExportIdentifier(exporter: IdentifierModule, name: KindName)

  type IdentifierFunction = IdentifierItem<Function>
  type IdentifierTable = IdentifierItem<Table>
  type IdentifierMemory = IdentifierItem<Memory>
  type IdentifierGlobal = IdentifierItem<Global>

  /** How a clashing export of each kind is renamed, given the module that exports it. */
  datatype RenameStrategy = RenameStrategy(
    functions: (IdentifierModule, IdentifierFunction) -> IdentifierFunction,
    tables: (IdentifierModule, IdentifierTable) -> IdentifierTable,
    memories: (IdentifierModule, IdentifierMemory) -> IdentifierMemory,
    globals: (IdentifierModule, IdentifierGlobal) -> IdentifierGlobal)

  /** Whether clashing export names abort the merge or are renamed. */
  datatype ClashingExports = Rename(strategy: RenameStrategy) | Signal

  /** Whether an import whose type differs from the export it names aborts the merge
      or has its link broken. */
  datatype LinkTypeMismatch = Ignore | Signal

  /** Exports to keep in the merged module even when an import of the group consumes them. */
  datatype KeepExports = KeepExports(
    functions: set<ExportIdentifier<IdentifierFunction>>,
    tables: set<ExportIdentifier<IdentifierTable>>,
    memories: set<ExportIdentifier<IdentifierMemory>>,
    globals: set<ExportIdentifier<IdentifierGlobal>>)
  {
    function Functions(): (r: set<ExportIdentifier<IdentifierFunction>>)
      ensures KeepExports(r, tables, memories, globals) == this
    {
      functions
    }

    function Tables(): (r: set<ExportIdentifier<IdentifierTable>>)
      ensures KeepExports(functions, r, memories, globals) == this
    {
      tables
    }

    function Memories(): (r: set<ExportIdentifier<IdentifierMemory>>)
      ensures KeepExports(functions, tables, r, globals) == this
    {
      memories
    }

    function Globals(): (r: set<ExportIdentifier<IdentifierGlobal>>)
      ensures KeepExports(functions, tables, memories, r) == this
    {
      globals
    }

    /** `keep_function`: keep the function export `name` of `exporter`; the other kinds are untouched. */
    function KeepFunction(exporter: IdentifierModule, name: string): (r: KeepExports)
      ensures ExportIdentifier(exporter, FromString(name)) in r.functions
      ensures r.functions - {ExportIdentifier(exporter, FromString(name))} <= functions <= r.functions
      ensures r.tables == tables && r.memories == memories && r.globals == globals
    {
      this.(functions := functions + {ExportIdentifier(exporter, FromString(name))})
    }

    /** `keep_tables`: keep the table export `name` of `exporter`; the other kinds are untouched. */
    function KeepTables(exporter: IdentifierModule, name: string): (r: KeepExports)
      ensures ExportIdentifier(exporter, FromString(name)) in r.tables
      ensures r.tables - {ExportIdentifier(exporter, FromString(name))} <= tables <= r.tables
      ensures r.functions == functions && r.memories == memories && r.globals == globals
    {
      this.(tables := tables + {ExportIdentifier(exporter, FromString(name))})
    }

    /** `keep_memory`: keep the memory export `name` of `exporter`; the other kinds are untouched. */
    function KeepMemory(exporter: IdentifierModule, name: string): (r: KeepExports)
      ensures ExportIdentifier(exporter, FromString(name)) in r.memories
      ensures r.memories - {ExportIdentifier(exporter, FromString(name))} <= memories <= r.memories
      ensures r.functions == functions && r.tables == tables && r.globals == globals
    {
      this.(memories := memories + {ExportIdentifier(exporter, FromString(name))})
    }

    /** `keep_globals`: keep the global export `name` of `exporter`; the other kinds are untouched. */
    function KeepGlobals(exporter: IdentifierModule, name: string): (r: KeepExports)
      ensures ExportIdentifier(exporter, FromString(name)) in r.globals
      ensures r.globals - {ExportIdentifier(exporter, FromString(name))} <= globals <= r.globals
      ensures r.functions == functions && r.tables == tables && r.memories == memories
    {
      this.(globals := globals + {ExportIdentifier(exporter, FromString(name))})
    }
  }

  /** The `Default` keep-set keeps nothing. */
  function EmptyKeepExports(): (r: KeepExports)
    ensures |r.functions| == |r.tables| == |r.memories| == |r.globals| == 0
  {
    KeepExports({}, {}, {}, {})
  }

  datatype Options = Options(
    clashingExports: ClashingExports,
    linkTypeMismatch: LinkTypeMismatch,
    resolvedExports: ResolvedExports,
    keepExports: Option<KeepExports>)

  /** `MergeOptions::default()`: signal clashes, signal type mismatches, remove resolved exports,
      keep no extra exports. */
  function DefaultOptions(): (r: Options)
    ensures r.clashingExports.Signal? && r.linkTypeMismatch.Signal?
    ensures r.resolvedExports.Remove? && r.keepExports.None?
  {
    Options(ClashingExports.Signal, LinkTypeMismatch.Signal, Remove, None)
  }

  /** The separator placed between module name and export name by the default renamer. */
  const RenameSeparator: string := ":"

  /** `default_rename`: the export `v` of module `m` is renamed to `m:v`. */
  function DefaultRename<Kind>(m: IdentifierModule, v: IdentifierItem<Kind>): (r: IdentifierItem<Kind>)
    ensures |r.Identifier()| == |m.Identifier()| + 1 + |v.Identifier()|
    ensures r.Identifier()[..|m.Identifier()|] == m.Identifier()
    ensures r.Identifier()[|m.Identifier()|] == ':'
    ensures r.Identifier()[|m.Identifier()| + 1..] == v.Identifier()
  {
    FromString(m.Identifier() + RenameSeparator + IntoString(v))
  }

  /** For a fixed export name, distinct modules yield distinct renamed exports;
      for a fixed module, distinct export names yield distinct renamed exports. */
  lemma {:induction false} DefaultRenameSeparates<Kind>(
    m1: IdentifierModule, m2: IdentifierModule, v1: IdentifierItem<Kind>, v2: IdentifierItem<Kind>)
    ensures v1 == v2 ==> (DefaultRename(m1, v1) == DefaultRename(m2, v2) <==> m1 == m2)
    ensures m1 == m2 ==> (DefaultRename(m1, v1) == DefaultRename(m2, v2) <==> v1 == v2)
  {
    var r1, r2 := DefaultRename(m1, v1), DefaultRename(m2, v2);
    if v1 == v2 && r1 == r2 {
      assert |m1.Identifier()| == |m2.Identifier()|;
      assert m1.Identifier() == r1.Identifier()[..|m1.Identifier()|] == m2.Identifier();
    }
    if m1 == m2 && r1 == r2 {
      assert v1.Identifier() == r1.Identifier()[|m1.Identifier()| + 1..] == v2.Identifier();
    }
  }

  /** The documented example: `f` exported by `A` and by `B` become `A:f` and `B:f`. */
  lemma DefaultRenameExample()
    ensures DefaultRename(IdentifierModule("A"), FromString<Function>("f")).Identifier() == "A:f"
    ensures DefaultRename(IdentifierModule("B"), FromString<Function>("f")).Identifier() == "B:f"
  {
  }

  /** `DEFAULT_RENAMER`: the default renaming for all four kinds. */
  function DefaultRenamer(): (r: RenameStrategy)
    ensures forall m, v :: r.functions(m, v) == DefaultRename(m, v)
    ensures forall m, v :: r.tables(m, v) == DefaultRename(m, v)
    ensures forall m, v :: r.memories(m, v) == DefaultRename(m, v)
    ensures forall m, v :: r.globals(m, v) == DefaultRename(m, v)
  {
    RenameStrategy(
      (m, v) => DefaultRename<Function>(m, v),
      (m, v) => DefaultRename<Table>(m, v),
      (m, v) => DefaultRename<Memory>(m, v),
      (m, v) => DefaultRename<Global>(m, v))
  }
}
