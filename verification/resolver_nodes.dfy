/** The nodes of the resolver's dependency graph: every import, every locally defined item and
    every export of every module of the merge group, for one item kind. Edges point from a
    consumer to its provider: an import points to the export it names, and an export points
    to the item at its index in its own module. */
module ResolverNodes {
  import opened Kinds

  /** An item id of an input module. walrus ids are arena handles; the model uses naturals. */
  type OldId = nat

  /** The type attached to a node, per kind: a function signature, a table's element type,
      nothing for memories, a global's value type. */
  datatype ItemType = FuncTy(func: FuncType) | TableTy(element: ValType) | MemoryTy | GlobalTy(value: ValType)

  /** One declared local variable of a function: its id and value type. */
  datatype LocalEntry = LocalEntry(localId: nat, valType: ValType)

  /** `importing_module` imports `exporting_identifier` from `exporting_module`
      into the slot `imported_index` of its own index space. */
  datatype Import<Kind> = Import(
    exportingModule: IdentifierModule,
    importingModule: IdentifierModule,
    exportingIdentifier: IdentifierItem<Kind>,
    importedIndex: OldId,
    ty: ItemType)

  /** An item that `owner` defines itself at `index`; for functions `data` lists its arguments. */
  datatype Local<Kind> = Local(owner: IdentifierModule, index: OldId, ty: ItemType, data: seq<LocalEntry>)

  /** `owner` exports the item at `index` under the name `identifier`. */
  datatype Export<Kind> = Export(owner: IdentifierModule, identifier: IdentifierItem<Kind>, index: OldId, ty: ItemType)

  datatype Node<Kind> = ImportNode(imp: Import<Kind>) | LocalNode(loc: Local<Kind>) | ExportNode(exp: Export<Kind>)

  /** The linked graph: its node set, and for each node that has one, its unique successor
      (the provider it consumes). */
  datatype Graph<Kind> = Graph(nodes: set<Node<Kind>>, succ: map<Node<Kind>, Node<Kind>>)

  /** Every edge connects two nodes of the graph. */
  ghost predicate WellFormed<Kind>(g: Graph<Kind>) {
    && g.succ.Keys <= g.nodes
    && g.succ.Values <= g.nodes
  }
}
