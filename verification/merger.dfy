/** The merger (`Merger`): it builds the merged module from the reduced dependencies. Every
    remaining import and every local function gets a new id; every node that a re-export chain
    collapses is pointed at the new id of the source it reduces to; the remaining exports are
    re-exported, renamed when required; and `build` adds a start function calling every
    module's start function and names the merged module. */
module Merger {
  import opened Wrappers
  import opened Kinds
  import opened MergeOptions
  import opened ResolverNodes
  import opened DependencyReduction
  import opened Collections
  import opened Errors
  import WalrusCopy

  /** An item id in the merged module. */
  type NewId = nat

  /** The key of the old-to-new maps: the module an old id belongs to, and the old id. */
  type MappingKey = (IdentifierModule, OldId)

  // ---------------------------------------------------------------------------------------
  // Mapping keys (`to_mapping_ref`)

  /** An import is keyed by the module that imports it and the slot it is imported into. */
  function ImportRef<Kind>(i: Import<Kind>): MappingKey {
    (i.importingModule, i.importedIndex)
  }

  /** A local item is keyed by the module that defines it and its index there. */
  function LocalRef<Kind>(l: Local<Kind>): MappingKey {
    (l.owner, l.index)
  }

  /** An export is keyed by the module that exports it and the index it exports. */
  function ExportRef<Kind>(e: Export<Kind>): MappingKey {
    (e.owner, e.index)
  }

  /** `to_mapping_ref` on a graph node: the key of the import, local or export it holds. */
  function ToMappingRef<Kind>(n: Node<Kind>): MappingKey {
    match n
    case ImportNode(i) => ImportRef(i)
    case LocalNode(l) => LocalRef(l)
    case ExportNode(e) => ExportRef(e)
  }

  /** The node key is the key of what the node holds; an import's key names the importing side
      only, so two imports into the same slot share a key whatever they import; and an export
      shares its key with the local it exports. */
  lemma MappingRefKeys<Kind>(n: Node<Kind>, i1: Import<Kind>, i2: Import<Kind>, e: Export<Kind>, l: Local<Kind>)
    ensures n.ImportNode? ==> ToMappingRef(n) == (n.imp.importingModule, n.imp.importedIndex)
    ensures n.LocalNode? ==> ToMappingRef(n) == (n.loc.owner, n.loc.index)
    ensures n.ExportNode? ==> ToMappingRef(n) == (n.exp.owner, n.exp.index)
    ensures ToMappingRef(ImportNode(i1)) == ToMappingRef(ImportNode(i2))
            <==> i1.importingModule == i2.importingModule && i1.importedIndex == i2.importedIndex
    ensures ToMappingRef(ExportNode(e)) == ToMappingRef(LocalNode(l)) <==> e.owner == l.owner && e.index == l.index
  {
  }

  // ---------------------------------------------------------------------------------------
  // The merged module, as far as the merger's bookkeeping touches it

  /** A function of the merged module; its new id is its position. */
  datatype NewFunction =
    | ImportedFunction(fromModule: string, name: string, ty: ItemType)
    | DefinedFunction(signature: ItemType, arguments: seq<NewId>)
    | MergedStart(calls: seq<NewId>)

  /** A global of the merged module. */
  datatype NewGlobal = ImportedGlobal(globalFrom: string, globalName: string, globalTy: ItemType)

  /** What an export of the merged module exports. */
  datatype ExportItem = FunctionItem(func: NewId) | TableItem(table: NewId) | MemoryItem(memory: NewId) | GlobalItem(global: NewId)

  datatype ExportEntry = ExportEntry(exportName: string, item: ExportItem)

  /** The parts of the merged module the bookkeeping reads or writes: functions, globals, the
      element types of tables, the number of memories, the value types of declared locals
      (`module.locals`), exports, the start function and the name. */
  datatype MergedModule = MergedModule(
    funcs: seq<NewFunction>, globals: seq<NewGlobal>, tables: seq<ValType>, memoryCount: nat,
    localTypes: seq<ValType>, exports: seq<ExportEntry>, start: Option<NewId>, name: Option<string>)

  /** The old-to-new maps (`Mapping`), one per index space. */
  datatype Mapping = Mapping(
    funcs: map<MappingKey, NewId>, globals: map<MappingKey, NewId>, tables: map<MappingKey, NewId>,
    memories: map<MappingKey, NewId>, locals: map<MappingKey, NewId>)

  /** The merged module under construction together with its old-to-new maps. */
  datatype Merging = Merging(merged: MergedModule, mapping: Mapping)

  function EmptyMerging(): Merging {
    var none: map<MappingKey, NewId> := map[];
    Merging(MergedModule([], [], [], 0, [], [], None, None), Mapping(none, none, none, none, none))
  }

  /** How exports are renamed, per kind (`RenameMap`, whose `rename_if_required` is not part of
      this model): an export listed here is renamed to the given name, any other keeps its name. */
  datatype RenameMap = RenameMap(
    functions: map<ExportIdentifier<IdentifierFunction>, IdentifierFunction>,
    tables: map<ExportIdentifier<IdentifierTable>, IdentifierTable>,
    memories: map<ExportIdentifier<IdentifierMemory>, IdentifierMemory>,
    globals: map<ExportIdentifier<IdentifierGlobal>, IdentifierGlobal>)

  /** `rename_if_required`: the name the export is re-exported under. */
  function RenameIfRequired<Kind>(renames: map<ExportIdentifier<IdentifierItem<Kind>>, IdentifierItem<Kind>>, e: Export<Kind>)
    : IdentifierItem<Kind>
  {
    var key := ExportIdentifier(e.owner, e.identifier);
    if key in renames then renames[key] else e.identifier
  }

  // ---------------------------------------------------------------------------------------
  // Constant expressions (`CopyForMerger for ConstExpr`)

  /** A constant expression; values and reference types are abstracted. */
  datatype ConstExpr = ConstValue(value: int) | ConstRefNull(refTy: ValType) | ConstGlobal(global: OldId) | ConstRefFunc(func: OldId)

  /** `copy_for`: values and null references are copied; a global or function reference is
      looked up under the considered module, and the lookup is unwrapped. */
  function CopyFor(e: ConstExpr, mapping: Mapping, considering: IdentifierModule): Result<ConstExpr, Panic> {
    match e
    case ConstValue(v) => Success(ConstValue(v))
    case ConstRefNull(t) => Success(ConstRefNull(t))
    case ConstGlobal(id) =>
      if (considering, id) in mapping.globals then Success(ConstGlobal(mapping.globals[(considering, id)]))
      else Failure(KeyMissing)
    case ConstRefFunc(id) =>
      if (considering, id) in mapping.funcs then Success(ConstRefFunc(mapping.funcs[(considering, id)]))
      else Failure(KeyMissing)
  }

  /** The part of an old-to-new map that belongs to one module, keyed by old id alone. */
  function Slice(m: map<MappingKey, NewId>, considering: IdentifierModule): (r: map<OldId, NewId>)
    ensures forall id :: id in r <==> (considering, id) in m
    ensures forall id | id in r :: r[id] == m[(considering, id)]
  {
    map k | k in m && k.0 == considering :: k.1 := m[k]
  }

  /** The id maps the body copier uses for the considered module: functions, globals, tables,
      memories and locals come from the mapping; data, elements and types from `rest`. */
  function BodyMaps(mapping: Mapping, considering: IdentifierModule, rest: WalrusCopy.IdMaps): WalrusCopy.IdMaps {
    WalrusCopy.IdMaps(
      Slice(mapping.funcs, considering), Slice(mapping.tables, considering), Slice(mapping.memories, considering),
      Slice(mapping.globals, considering), Slice(mapping.locals, considering), rest.datas, rest.elements, rest.types)
  }

  /** `copy_for` renames a global reference exactly as the body copier renames a `global.get`
      with maps whose global map is the module's slice (as `BodyMaps` builds them): both
      succeed on the same inputs, to the same new id, and otherwise both panic on the missing
      key. */
  lemma CopyForGlobalAgrees(g: OldId, mapping: Mapping, considering: IdentifierModule,
                            maps: WalrusCopy.IdMaps, labels: map<nat, nat>, spare: nat)
    requires maps.globals == Slice(mapping.globals, considering)
    ensures CopyFor(ConstGlobal(g), mapping, considering)
            == var body := WalrusCopy.RewriteInstr(WalrusCopy.GlobalGet(g), maps, labels, spare);
               if body.Success? then Success(ConstGlobal(body.value.getGlobal)) else Failure(body.error)
  {
    WalrusCopy.RewriteGlobalGet(g, maps, labels, spare);
    assert g in maps.globals <==> (considering, g) in mapping.globals;
  }

  /** `copy_for` renames a function reference exactly as the body copier renames a `ref.func`
      with maps whose function map is the module's slice. */
  lemma CopyForFuncAgrees(f: OldId, mapping: Mapping, considering: IdentifierModule,
                          maps: WalrusCopy.IdMaps, labels: map<nat, nat>, spare: nat)
    requires maps.funcs == Slice(mapping.funcs, considering)
    ensures CopyFor(ConstRefFunc(f), mapping, considering)
            == var body := WalrusCopy.RewriteInstr(WalrusCopy.RefFunc(f), maps, labels, spare);
               if body.Success? then Success(ConstRefFunc(body.value.referenced)) else Failure(body.error)
  {
    WalrusCopy.RewriteRefFunc(f, maps, labels, spare);
    assert f in maps.funcs <==> (considering, f) in mapping.funcs;
  }

  /** Values and null references are copied unchanged, whatever the mapping. */
  lemma CopyForKeepsValues(e: ConstExpr, mapping: Mapping, considering: IdentifierModule)
    requires e.ConstValue? || e.ConstRefNull?
    ensures CopyFor(e, mapping, considering) == Success(e)
  {
  }

  // ---------------------------------------------------------------------------------------
  // `join` for functions, step 1: the remaining imports

  /** `add_new_import_function`: a new imported function for the import, under the next id. */
  function ImportedFunctionOf(i: Import<Function>): NewFunction {
    ImportedFunction(i.exportingModule.name, i.exportingIdentifier.identifier, i.ty)
  }

  /** Step 1 for one import: add it and record its new id under its key. */
  function AddImportFunction(s: Merging, i: Import<Function>): Merging {
    Merging(s.merged.(funcs := s.merged.funcs + [ImportedFunctionOf(i)]),
            s.mapping.(funcs := s.mapping.funcs[ImportRef(i) := |s.merged.funcs|]))
  }

  /** Step 1: every remaining import, in iteration order. */
  function AddImportFunctions(s: Merging, imports: seq<Import<Function>>): (r: Merging)
    ensures |r.merged.funcs| == |s.merged.funcs| + |imports|
    ensures r.merged.funcs[..|s.merged.funcs|] == s.merged.funcs
    ensures forall k | 0 <= k < |imports| :: r.merged.funcs[|s.merged.funcs| + k] == ImportedFunctionOf(imports[k])
    ensures r.merged.(funcs := s.merged.funcs) == s.merged
    ensures r.mapping.(funcs := s.mapping.funcs) == s.mapping
    decreases |imports|
  {
    if |imports| == 0 then s
    else
      var prefix := imports[..|imports| - 1];
      var t := AddImportFunctions(s, prefix);
      var r := AddImportFunction(t, imports[|imports| - 1]);
      assert forall k | 0 <= k < |prefix| :: prefix[k] == imports[k];
      assert r.merged.funcs[..|s.merged.funcs|] == t.merged.funcs[..|s.merged.funcs|];
      r
  }

  /** With no two imports sharing a key, the k-th import's key maps to the k-th new id, which
      holds that import. */
  lemma {:induction false} AddImportFunctionsIds(s: Merging, imports: seq<Import<Function>>, k: nat)
    requires forall a, b | 0 <= a < b < |imports| :: ImportRef(imports[a]) != ImportRef(imports[b])
    requires k < |imports|
    ensures ImportRef(imports[k]) in AddImportFunctions(s, imports).mapping.funcs
    ensures AddImportFunctions(s, imports).mapping.funcs[ImportRef(imports[k])] == |s.merged.funcs| + k
    decreases |imports|
  {
    var prefix := imports[..|imports| - 1];
    if k < |imports| - 1 {
      assert prefix[k] == imports[k];
      AddImportFunctionsIds(s, prefix, k);
    }
  }

  // ---------------------------------------------------------------------------------------
  // `join` for functions, step 2: the locals

  /** The arguments of a local function: each gets a new local of its value type, recorded
      under (module, old local id); returns the new local ids in order. */
  function AddArguments(s: Merging, owner: IdentifierModule, args: seq<LocalEntry>): (r: (Merging, seq<NewId>))
    ensures |r.1| == |args|
    ensures |r.0.merged.localTypes| == |s.merged.localTypes| + |args|
    ensures forall k | 0 <= k < |args| :: r.1[k] == |s.merged.localTypes| + k && r.0.merged.localTypes[r.1[k]] == args[k].valType
    ensures r.0.merged.(localTypes := s.merged.localTypes) == s.merged
    ensures r.0.mapping.(locals := s.mapping.locals) == s.mapping
    ensures forall k | 0 <= k < |args| :: (owner, args[k].localId) in r.0.mapping.locals
    decreases |args|
  {
    if |args| == 0 then (s, [])
    else
      var prefix := args[..|args| - 1];
      var last := args[|args| - 1];
      var (t, ids) := AddArguments(s, owner, prefix);
      var id := |t.merged.localTypes|;
      assert forall k | 0 <= k < |prefix| :: prefix[k] == args[k];
      (Merging(t.merged.(localTypes := t.merged.localTypes + [last.valType]),
               t.mapping.(locals := t.mapping.locals[(owner, last.localId) := id])),
       ids + [id])
  }

  /** `add_new_local_function`: the arguments first, then a new function with the local's
      signature and the new argument ids; returns the new function id. */
  function AddNewLocalFunction(s: Merging, l: Local<Function>): (r: (Merging, NewId))
    ensures r.1 == |r.0.merged.funcs| - 1
    ensures r.0.merged.funcs[..r.1] == s.merged.funcs
    ensures r.0.merged.funcs[r.1].DefinedFunction? && r.0.merged.funcs[r.1].signature == l.ty
    ensures |r.0.merged.funcs[r.1].arguments| == |l.data|
    ensures r.0.mapping.(locals := s.mapping.locals) == s.mapping
    ensures r.0.merged.(funcs := s.merged.funcs, localTypes := s.merged.localTypes) == s.merged
  {
    var (t, args) := AddArguments(s, l.owner, l.data);
    (Merging(t.merged.(funcs := t.merged.funcs + [DefinedFunction(l.ty, args)]), t.mapping), |t.merged.funcs|)
  }

  /** Step 2 for one local: add it and record its new id under its key. */
  function AddLocalFunction(s: Merging, l: Local<Function>): (r: Merging)
    ensures |r.merged.funcs| == |s.merged.funcs| + 1 && r.merged.funcs[..|s.merged.funcs|] == s.merged.funcs
    ensures r.merged.funcs[|s.merged.funcs|].DefinedFunction? && r.merged.funcs[|s.merged.funcs|].signature == l.ty
    ensures r.merged.(funcs := s.merged.funcs, localTypes := s.merged.localTypes) == s.merged
    ensures r.mapping.funcs == s.mapping.funcs[LocalRef(l) := |s.merged.funcs|]
    ensures r.mapping.(funcs := s.mapping.funcs, locals := s.mapping.locals) == s.mapping
  {
    var (t, id) := AddNewLocalFunction(s, l);
    t.(mapping := t.mapping.(funcs := t.mapping.funcs[LocalRef(l) := id]))
  }

  /** Step 2: every local among the keys of the reduction map, in iteration order. */
  function AddLocalFunctions(s: Merging, locals: seq<Local<Function>>): (r: Merging)
    ensures |r.merged.funcs| == |s.merged.funcs| + |locals|
    ensures r.merged.funcs[..|s.merged.funcs|] == s.merged.funcs
    ensures r.merged.(funcs := s.merged.funcs, localTypes := s.merged.localTypes) == s.merged
    ensures r.mapping.(funcs := s.mapping.funcs, locals := s.mapping.locals) == s.mapping
    decreases |locals|
  {
    if |locals| == 0 then s
    else
      var prefix := locals[..|locals| - 1];
      var t := AddLocalFunctions(s, prefix);
      var r := AddLocalFunction(t, locals[|locals| - 1]);
      assert forall k | 0 <= k < |prefix| :: prefix[k] == locals[k];
      assert r.merged.funcs[..|s.merged.funcs|] == t.merged.funcs[..|s.merged.funcs|];
      r
  }

  /** The k-th new function of step 2 is defined with the k-th local's signature. */
  lemma {:induction false} AddLocalFunctionsDefines(s: Merging, locals: seq<Local<Function>>, k: nat)
    requires k < |locals|
    ensures AddLocalFunctions(s, locals).merged.funcs[|s.merged.funcs| + k].DefinedFunction?
    ensures AddLocalFunctions(s, locals).merged.funcs[|s.merged.funcs| + k].signature == locals[k].ty
    decreases |locals|
  {
    var prefix := locals[..|locals| - 1];
    var t := AddLocalFunctions(s, prefix);
    var r := AddLocalFunctions(s, locals);
    assert r == AddLocalFunction(t, locals[|locals| - 1]);
    if k < |prefix| {
      AddLocalFunctionsDefines(s, prefix, k);
      assert prefix[k] == locals[k];
      assert r.merged.funcs[|s.merged.funcs| + k] == r.merged.funcs[..|t.merged.funcs|][|s.merged.funcs| + k];
    } else {
      assert |s.merged.funcs| + k == |t.merged.funcs|;
    }
  }

  /** Step 2 leaves the new id under every key that no local has. */
  lemma {:induction false} AddLocalFunctionsKeeps(s: Merging, locals: seq<Local<Function>>, key: MappingKey)
    requires key in s.mapping.funcs
    requires forall k | 0 <= k < |locals| :: LocalRef(locals[k]) != key
    ensures key in AddLocalFunctions(s, locals).mapping.funcs
    ensures AddLocalFunctions(s, locals).mapping.funcs[key] == s.mapping.funcs[key]
    decreases |locals|
  {
    if |locals| > 0 {
      var prefix := locals[..|locals| - 1];
      assert forall k | 0 <= k < |prefix| :: prefix[k] == locals[k];
      AddLocalFunctionsKeeps(s, prefix, key);
    }
  }

  /** With no two locals sharing a key, the k-th local's key maps to the k-th new function. */
  lemma {:induction false} AddLocalFunctionsIds(s: Merging, locals: seq<Local<Function>>, k: nat)
    requires forall a, b | 0 <= a < b < |locals| :: LocalRef(locals[a]) != LocalRef(locals[b])
    requires k < |locals|
    ensures LocalRef(locals[k]) in AddLocalFunctions(s, locals).mapping.funcs
    ensures AddLocalFunctions(s, locals).mapping.funcs[LocalRef(locals[k])] == |s.merged.funcs| + k
    decreases |locals|
  {
    var prefix := locals[..|locals| - 1];
    if k < |locals| - 1 {
      assert prefix[k] == locals[k];
      AddLocalFunctionsIds(s, prefix, k);
    }
  }

  /** The locals among `nodes`, in order (`filter_map(as_local)`). */
  function LocalsOf<Kind>(nodes: seq<Node<Kind>>): (r: seq<Local<Kind>>)
    ensures forall l | l in r :: LocalNode(l) in nodes
    ensures forall n | n in nodes && n.LocalNode? :: n.loc in r
    decreases |nodes|
  {
    if |nodes| == 0 then []
    else
      var rest := LocalsOf(nodes[1..]);
      assert forall n | n in nodes[1..] :: n in nodes;
      if nodes[0].LocalNode? then [nodes[0].loc] + rest else rest
  }

  /** No duplicate nodes, no duplicate locals. */
  lemma {:induction false} LocalsOfDistinct<Kind>(nodes: seq<Node<Kind>>)
    requires NoDuplicates(nodes)
    ensures NoDuplicates(LocalsOf(nodes))
    decreases |nodes|
  {
    if |nodes| > 0 {
      var rest := nodes[1..];
      assert NoDuplicates(rest) by {
        forall i, j | 0 <= i < j < |rest| ensures rest[i] != rest[j] {
          assert rest[i] == nodes[i + 1] && rest[j] == nodes[j + 1];
        }
      }
      LocalsOfDistinct(rest);
      if nodes[0].LocalNode? {
        assert nodes[0] !in rest by {
          forall i | 0 <= i < |rest| ensures rest[i] != nodes[0] {
            assert rest[i] == nodes[i + 1];
          }
        }
        var r := LocalsOf(nodes);
        assert r == [nodes[0].loc] + LocalsOf(rest);
        forall i, j | 0 <= i < j < |r| ensures r[i] != r[j] {
          if i == 0 {
            assert r[j] in LocalsOf(rest);
            assert LocalNode(r[j]) in rest;
          }
        }
      }
    }
  }

  // ---------------------------------------------------------------------------------------
  // `join` for functions, step 3: redirecting every node to its source

  /** Step 3: for every node of the reduction map, in iteration order, the id found under its
      source's key (as it stands at that moment) is stored under the node's key; a node whose
      source's key is absent is skipped. */
  function Redirect<Kind>(m: map<MappingKey, NewId>, red: map<Node<Kind>, Node<Kind>>, order: seq<Node<Kind>>)
    : (r: map<MappingKey, NewId>)
    requires forall n | n in order :: n in red
    ensures m.Keys <= r.Keys
    decreases |order|
  {
    if |order| == 0 then m
    else
      var n := order[|order| - 1];
      var t := Redirect(m, red, order[..|order| - 1]);
      if ToMappingRef(red[n]) in t then t[ToMappingRef(n) := t[ToMappingRef(red[n])]] else t
  }

  /** Every node's target is a node of the map, and a fixed point: sources reduce to themselves. */
  predicate TargetsFixed<Kind>(red: map<Node<Kind>, Node<Kind>>) {
    forall n | n in red :: red[n] in red && red[red[n]] == red[n]
  }

  /** Nodes that share a key share a target. */
  predicate KeyCoherent<Kind>(red: map<Node<Kind>, Node<Kind>>) {
    forall a, b | a in red && b in red && ToMappingRef(a) == ToMappingRef(b) :: red[a] == red[b]
  }

  /** Whatever the iteration order, step 3 leaves under every node's key the id its source had
      before the step, and leaves each source's own id alone. The order would matter if a node
      could overwrite the key of a source it does not reduce to; coherence rules that out. */
  lemma {:induction false} RedirectToSource<Kind>(base: map<MappingKey, NewId>, red: map<Node<Kind>, Node<Kind>>, order: seq<Node<Kind>>)
    requires forall n | n in order :: n in red
    requires TargetsFixed(red) && KeyCoherent(red)
    requires forall n | n in order :: ToMappingRef(red[n]) in base
    ensures forall n | n in order ::
              ToMappingRef(n) in Redirect(base, red, order)
              && Redirect(base, red, order)[ToMappingRef(n)] == base[ToMappingRef(red[n])]
    ensures forall n | n in red && red[n] == n && ToMappingRef(n) in base ::
              Redirect(base, red, order)[ToMappingRef(n)] == base[ToMappingRef(n)]
    decreases |order|
  {
    if |order| > 0 {
      var prefix := order[..|order| - 1];
      var n := order[|order| - 1];
      var t := Redirect(base, red, prefix);
      assert forall x | x in prefix :: x in order;
      RedirectToSource(base, red, prefix);
      var src := red[n];
      assert red[src] == src;
      assert t[ToMappingRef(src)] == base[ToMappingRef(src)];
      var r := Redirect(base, red, order);
      assert r == t[ToMappingRef(n) := base[ToMappingRef(src)]];
      forall x | x in order
        ensures ToMappingRef(x) in r && r[ToMappingRef(x)] == base[ToMappingRef(red[x])]
      {
        if x != n && ToMappingRef(x) == ToMappingRef(n) {
          assert red[x] == red[n];
        } else if x != n {
          assert x in prefix by {
            var i :| 0 <= i < |order| && order[i] == x;
            assert prefix[i] == x;
          }
        }
      }
      forall x | x in red && red[x] == x && ToMappingRef(x) in base
        ensures r[ToMappingRef(x)] == base[ToMappingRef(x)]
      {
        if ToMappingRef(x) == ToMappingRef(n) {
          assert red[x] == red[n];
        }
      }
    }
  }

  // ---------------------------------------------------------------------------------------
  // `join` for functions, step 4: the remaining exports

  /** `add_new_export_function` for one remaining export: when its key has an id, it is
      re-exported under its possibly renamed name; otherwise it is skipped. */
  function AddExportFunction(s: Merging, renames: RenameMap, e: Export<Function>): Merging {
    if ExportRef(e) in s.mapping.funcs then
      var entry := ExportEntry(RenameIfRequired(renames.functions, e).identifier, FunctionItem(s.mapping.funcs[ExportRef(e)]));
      s.(merged := s.merged.(exports := s.merged.exports + [entry]))
    else s
  }

  /** Step 4: every remaining export, in iteration order. Only exports are added. */
  function AddExportFunctions(s: Merging, renames: RenameMap, exports: seq<Export<Function>>): (r: Merging)
    ensures r.mapping == s.mapping
    ensures r.merged.(exports := s.merged.exports) == s.merged
    ensures |s.merged.exports| <= |r.merged.exports| <= |s.merged.exports| + |exports|
    ensures r.merged.exports[..|s.merged.exports|] == s.merged.exports
    decreases |exports|
  {
    if |exports| == 0 then s
    else
      var t := AddExportFunctions(s, renames, exports[..|exports| - 1]);
      var r := AddExportFunction(t, renames, exports[|exports| - 1]);
      assert r.merged.exports[..|s.merged.exports|] == t.merged.exports[..|s.merged.exports|];
      r
  }

  /** The export entry a remaining export becomes. */
  function ExportEntryOf(m: map<MappingKey, NewId>, renames: RenameMap, e: Export<Function>): ExportEntry
    requires ExportRef(e) in m
  {
    ExportEntry(RenameIfRequired(renames.functions, e).identifier, FunctionItem(m[ExportRef(e)]))
  }

  /** When every remaining export's key has an id, none is skipped: the k-th export entry added
      re-exports the k-th export, under its possibly renamed name, at the id of its key. */
  lemma {:induction false} AddExportFunctionsAll(s: Merging, renames: RenameMap, exports: seq<Export<Function>>)
    requires forall e | e in exports :: ExportRef(e) in s.mapping.funcs
    ensures |AddExportFunctions(s, renames, exports).merged.exports| == |s.merged.exports| + |exports|
    ensures forall k | 0 <= k < |exports| ::
              AddExportFunctions(s, renames, exports).merged.exports[|s.merged.exports| + k]
              == ExportEntryOf(s.mapping.funcs, renames, exports[k])
    decreases |exports|
  {
    if |exports| > 0 {
      var prefix := exports[..|exports| - 1];
      assert forall e | e in prefix :: e in exports;
      AddExportFunctionsAll(s, renames, prefix);
      var t := AddExportFunctions(s, renames, prefix);
      var r := AddExportFunctions(s, renames, exports);
      assert r.merged.exports == t.merged.exports + [ExportEntryOf(s.mapping.funcs, renames, exports[|exports| - 1])];
      forall k | 0 <= k < |exports|
        ensures r.merged.exports[|s.merged.exports| + k] == ExportEntryOf(s.mapping.funcs, renames, exports[k])
      {
        if k < |prefix| {
          assert prefix[k] == exports[k];
        }
      }
    }
  }

  // ---------------------------------------------------------------------------------------
  // `join` for functions, all four steps

  /** `MergedJoinable::join` for functions. The three orders are the iteration orders of the
      remaining imports, of the reduction map's keys and of the remaining exports. */
  function JoinFunctions(s: Merging, reduced: ReducedDependencies<Function>, renames: RenameMap,
                         importOrder: seq<Import<Function>>, nodeOrder: seq<Node<Function>>,
                         exportOrder: seq<Export<Function>>): (r: Merging)
    requires forall n | n in nodeOrder :: n in reduced.reductionMap
    ensures r.merged.(funcs := s.merged.funcs, localTypes := s.merged.localTypes, exports := s.merged.exports) == s.merged
    ensures r.mapping.(funcs := s.mapping.funcs, locals := s.mapping.locals) == s.mapping
  {
    AddExportFunctions(Redirected(s, reduced, importOrder, nodeOrder), renames, exportOrder)
  }

  /** Steps 1 to 3 of `join` for functions. */
  function Redirected(s: Merging, reduced: ReducedDependencies<Function>,
                      importOrder: seq<Import<Function>>, nodeOrder: seq<Node<Function>>): Merging
    requires forall n | n in nodeOrder :: n in reduced.reductionMap
  {
    var s1 := AddImportFunctions(s, importOrder);
    var s2 := AddLocalFunctions(s1, LocalsOf(nodeOrder));
    s2.(mapping := s2.mapping.(funcs := Redirect(s2.mapping.funcs, reduced.reductionMap, nodeOrder)))
  }

  /** The shape every linked graph built from parsed modules has: an import and a local of the
      same module never share an index (one index space per kind), so non-export nodes have
      distinct keys; and every export leads to the import or local at its own index. */
  predicate KeyedGraph<Kind>(g: Graph<Kind>) {
    && (forall a, b | a in g.nodes && b in g.nodes && !a.ExportNode? && !b.ExportNode? && ToMappingRef(a) == ToMappingRef(b) :: a == b)
    && (forall n | n in g.nodes && n.ExportNode? ::
          n in g.succ && !g.succ[n].ExportNode? && ToMappingRef(g.succ[n]) == ToMappingRef(n))
  }

  /** On such a graph the reduction map has what step 3 needs: targets are fixed points, and
      nodes sharing a key (an export and the item it exports) share a target. */
  lemma ReductionCoherent<Kind>(g: Graph<Kind>)
    requires WellFormed(g) && AllReachSources(g) && KeyedGraph(g)
    ensures TargetsFixed(ReductionMap(g))
    ensures KeyCoherent(ReductionMap(g))
  {
    var red := ReductionMap(g);
    forall a, b | a in red && b in red && ToMappingRef(a) == ToMappingRef(b)
      ensures red[a] == red[b]
    {
      var ba := if a.ExportNode? then g.succ[a] else a;
      var bb := if b.ExportNode? then g.succ[b] else b;
      assert red[a] == red[ba] && red[b] == red[bb];
      assert ba == bb;
    }
  }

  /** The merged function a source stands for: an import becomes an imported function of the
      same name and module, a local a defined function with the local's signature. */
  predicate Denotes(f: NewFunction, source: Node<Function>) {
    match source
    case ImportNode(i) => f == ImportedFunctionOf(i)
    case LocalNode(l) => f.DefinedFunction? && f.signature == l.ty
    case ExportNode(_) => false
  }

  /** Steps 1 and 2 from an empty module. */
  function ImportsAndLocals(importOrder: seq<Import<Function>>, nodeOrder: seq<Node<Function>>): Merging {
    AddLocalFunctions(AddImportFunctions(EmptyMerging(), importOrder), LocalsOf(nodeOrder))
  }

  /** Distinct imports of a keyed graph have distinct keys. */
  lemma ImportKeysDistinct(g: Graph<Function>, importOrder: seq<Import<Function>>)
    requires KeyedGraph(g) && IsEnumeration(importOrder, RemainingImports(g))
    ensures forall a, b | 0 <= a < b < |importOrder| :: ImportRef(importOrder[a]) != ImportRef(importOrder[b])
  {
    forall a, b | 0 <= a < b < |importOrder| ensures ImportRef(importOrder[a]) != ImportRef(importOrder[b]) {
      assert ToMappingRef(ImportNode(importOrder[a])) == ImportRef(importOrder[a]);
      assert ToMappingRef(ImportNode(importOrder[b])) == ImportRef(importOrder[b]);
    }
  }

  /** Distinct locals of a keyed graph have distinct keys. */
  lemma LocalKeysDistinct(g: Graph<Function>, nodeOrder: seq<Node<Function>>)
    requires KeyedGraph(g) && IsEnumeration(nodeOrder, g.nodes)
    ensures forall a, b | 0 <= a < b < |LocalsOf(nodeOrder)| :: LocalRef(LocalsOf(nodeOrder)[a]) != LocalRef(LocalsOf(nodeOrder)[b])
  {
    var locals := LocalsOf(nodeOrder);
    LocalsOfDistinct(nodeOrder);
    forall a, b | 0 <= a < b < |locals| ensures LocalRef(locals[a]) != LocalRef(locals[b]) {
      assert LocalNode(locals[a]) in nodeOrder && LocalNode(locals[b]) in nodeOrder;
      assert ToMappingRef(LocalNode(locals[a])) == LocalRef(locals[a]);
      assert ToMappingRef(LocalNode(locals[b])) == LocalRef(locals[b]);
    }
  }

  /** After steps 1 and 2 a remaining import has an id under its key, which holds the imported
      function made for it. */
  lemma ImportSourceCovered(g: Graph<Function>, importOrder: seq<Import<Function>>, nodeOrder: seq<Node<Function>>, i: Import<Function>)
    requires KeyedGraph(g)
    requires IsEnumeration(importOrder, RemainingImports(g)) && IsEnumeration(nodeOrder, g.nodes)
    requires i in RemainingImports(g)
    ensures var s2 := ImportsAndLocals(importOrder, nodeOrder);
            && ImportRef(i) in s2.mapping.funcs
            && s2.mapping.funcs[ImportRef(i)] < |s2.merged.funcs|
            && s2.merged.funcs[s2.mapping.funcs[ImportRef(i)]] == ImportedFunctionOf(i)
  {
    var s1 := AddImportFunctions(EmptyMerging(), importOrder);
    var locals := LocalsOf(nodeOrder);
    var s2 := ImportsAndLocals(importOrder, nodeOrder);
    ImportKeysDistinct(g, importOrder);
    var k := ImportPosition(importOrder, i);
    AddImportFunctionsIds(EmptyMerging(), importOrder, k);
    LocalsAvoidImportKey(g, nodeOrder, i);
    AddLocalFunctionsKeeps(s1, locals, ImportRef(i));
    assert s2.merged.funcs[k] == s2.merged.funcs[..|s1.merged.funcs|][k];
  }

  /** The position of an import in an order that holds it. */
  lemma ImportPosition(importOrder: seq<Import<Function>>, i: Import<Function>) returns (k: nat)
    requires i in importOrder
    ensures k < |importOrder| && importOrder[k] == i
  {
    k :| 0 <= k < |importOrder| && importOrder[k] == i;
  }

  /** In a keyed graph no local carries the key of an import. */
  lemma LocalsAvoidImportKey(g: Graph<Function>, nodeOrder: seq<Node<Function>>, i: Import<Function>)
    requires KeyedGraph(g) && IsEnumeration(nodeOrder, g.nodes)
    requires ImportNode(i) in g.nodes
    ensures forall j | 0 <= j < |LocalsOf(nodeOrder)| :: LocalRef(LocalsOf(nodeOrder)[j]) != ImportRef(i)
  {
    var locals := LocalsOf(nodeOrder);
    forall j | 0 <= j < |locals| ensures LocalRef(locals[j]) != ImportRef(i) {
      assert LocalNode(locals[j]) in nodeOrder;
      assert ToMappingRef(LocalNode(locals[j])) == LocalRef(locals[j]);
      assert ToMappingRef(ImportNode(i)) == ImportRef(i);
    }
  }

  /** After steps 1 and 2 a local of the graph has an id under its key, which holds a defined
      function with the local's signature. */
  lemma LocalSourceCovered(g: Graph<Function>, importOrder: seq<Import<Function>>, nodeOrder: seq<Node<Function>>, l: Local<Function>)
    requires KeyedGraph(g)
    requires IsEnumeration(importOrder, RemainingImports(g)) && IsEnumeration(nodeOrder, g.nodes)
    requires LocalNode(l) in g.nodes
    ensures var s2 := ImportsAndLocals(importOrder, nodeOrder);
            && LocalRef(l) in s2.mapping.funcs
            && s2.mapping.funcs[LocalRef(l)] < |s2.merged.funcs|
            && Denotes(s2.merged.funcs[s2.mapping.funcs[LocalRef(l)]], LocalNode(l))
  {
    var s1 := AddImportFunctions(EmptyMerging(), importOrder);
    var locals := LocalsOf(nodeOrder);
    LocalKeysDistinct(g, nodeOrder);
    var k := LocalPosition(nodeOrder, l);
    AddLocalFunctionsIds(s1, locals, k);
    AddLocalFunctionsDefines(s1, locals, k);
  }

  /** The position of a local among the locals of an order that holds its node. */
  lemma LocalPosition(nodeOrder: seq<Node<Function>>, l: Local<Function>) returns (k: nat)
    requires LocalNode(l) in nodeOrder
    ensures k < |LocalsOf(nodeOrder)| && LocalsOf(nodeOrder)[k] == l
  {
    assert l in LocalsOf(nodeOrder);
    k :| 0 <= k < |LocalsOf(nodeOrder)| && LocalsOf(nodeOrder)[k] == l;
  }

  /** After steps 1 and 2 every source of the graph has an id under its key, and that id holds
      the function the source stands for. */
  lemma ImportsAndLocalsCoverSources(g: Graph<Function>, importOrder: seq<Import<Function>>, nodeOrder: seq<Node<Function>>)
    requires KeyedGraph(g)
    requires IsEnumeration(importOrder, RemainingImports(g)) && IsEnumeration(nodeOrder, g.nodes)
    ensures forall src | IsSource(g, src) ::
              var s2 := ImportsAndLocals(importOrder, nodeOrder);
              ToMappingRef(src) in s2.mapping.funcs
              && s2.mapping.funcs[ToMappingRef(src)] < |s2.merged.funcs|
              && Denotes(s2.merged.funcs[s2.mapping.funcs[ToMappingRef(src)]], src)
  {
    forall src | IsSource(g, src)
      ensures var s2 := ImportsAndLocals(importOrder, nodeOrder);
              ToMappingRef(src) in s2.mapping.funcs
              && s2.mapping.funcs[ToMappingRef(src)] < |s2.merged.funcs|
              && Denotes(s2.merged.funcs[s2.mapping.funcs[ToMappingRef(src)]], src)
    {
      if src.ImportNode? {
        ImportSourceCovered(g, importOrder, nodeOrder, src.imp);
      } else {
        LocalSourceCovered(g, importOrder, nodeOrder, src.loc);
      }
    }
  }

  /** `join` for functions from an empty module, over the graph's reduced dependencies. */
  function JoinedFunctions(g: Graph<Function>, keep: Option<set<ExportIdentifier<IdentifierFunction>>>,
                           clashing: set<ExportIdentifier<IdentifierFunction>>, renames: RenameMap,
                           importOrder: seq<Import<Function>>, nodeOrder: seq<Node<Function>>,
                           exportOrder: seq<Export<Function>>): Merging
    requires WellFormed(g) && AllReachSources(g) && IsEnumeration(nodeOrder, g.nodes)
  {
    JoinFunctions(EmptyMerging(), ReduceDependencies(g, keep, clashing), renames, importOrder, nodeOrder, exportOrder)
  }

  /** The property the merge rests on, for one node: after `join`, the node's key holds the new
      id of the function its source stands for. */
  lemma JoinFunctionsRedirectsNode(g: Graph<Function>, keep: Option<set<ExportIdentifier<IdentifierFunction>>>,
                                   clashing: set<ExportIdentifier<IdentifierFunction>>, renames: RenameMap,
                                   importOrder: seq<Import<Function>>, nodeOrder: seq<Node<Function>>,
                                   exportOrder: seq<Export<Function>>, n: Node<Function>)
    requires WellFormed(g) && AllReachSources(g) && KeyedGraph(g)
    requires IsEnumeration(importOrder, RemainingImports(g)) && IsEnumeration(nodeOrder, g.nodes)
    requires n in g.nodes
    ensures var r := JoinedFunctions(g, keep, clashing, renames, importOrder, nodeOrder, exportOrder);
            && ToMappingRef(n) in r.mapping.funcs
            && r.mapping.funcs[ToMappingRef(n)] < |r.merged.funcs|
            && Denotes(r.merged.funcs[r.mapping.funcs[ToMappingRef(n)]], ReduceDependencies(g, keep, clashing).reductionMap[n])
  {
    var reduced := ReduceDependencies(g, keep, clashing);
    var red := reduced.reductionMap;
    assert red == ReductionMap(g);
    ReductionCoherent(g);
    ImportsAndLocalsCoverSources(g, importOrder, nodeOrder);
    var s2 := ImportsAndLocals(importOrder, nodeOrder);
    var base := s2.mapping.funcs;
    assert forall x | x in nodeOrder :: IsSource(g, red[x]);
    RedirectToSource(base, red, nodeOrder);
    var r := JoinedFunctions(g, keep, clashing, renames, importOrder, nodeOrder, exportOrder);
    assert r.mapping.funcs == Redirect(base, red, nodeOrder);
    assert r.merged.funcs == s2.merged.funcs;
    assert n in nodeOrder;
  }

  /** The property the merge rests on: after `join`, the key of every node of the graph (every
      import, local and export of every module) holds the new id of the function its source
      stands for. A call through an import that another module satisfies, or through a chain
      of re-exports, thus lands on the defining module's function; an import nothing satisfies
      lands on one shared import of the merged module. */
  lemma JoinFunctionsRedirects(g: Graph<Function>, keep: Option<set<ExportIdentifier<IdentifierFunction>>>,
                               clashing: set<ExportIdentifier<IdentifierFunction>>, renames: RenameMap,
                               importOrder: seq<Import<Function>>, nodeOrder: seq<Node<Function>>,
                               exportOrder: seq<Export<Function>>)
    requires WellFormed(g) && AllReachSources(g) && KeyedGraph(g)
    requires IsEnumeration(importOrder, RemainingImports(g)) && IsEnumeration(nodeOrder, g.nodes)
    ensures forall n | n in g.nodes ::
              var r := JoinedFunctions(g, keep, clashing, renames, importOrder, nodeOrder, exportOrder);
              && ToMappingRef(n) in r.mapping.funcs
              && r.mapping.funcs[ToMappingRef(n)] < |r.merged.funcs|
              && Denotes(r.merged.funcs[r.mapping.funcs[ToMappingRef(n)]], ReduceDependencies(g, keep, clashing).reductionMap[n])
  {
    forall n | n in g.nodes
      ensures var r := JoinedFunctions(g, keep, clashing, renames, importOrder, nodeOrder, exportOrder);
              && ToMappingRef(n) in r.mapping.funcs
              && r.mapping.funcs[ToMappingRef(n)] < |r.merged.funcs|
              && Denotes(r.merged.funcs[r.mapping.funcs[ToMappingRef(n)]], ReduceDependencies(g, keep, clashing).reductionMap[n])
    {
      JoinFunctionsRedirectsNode(g, keep, clashing, renames, importOrder, nodeOrder, exportOrder, n);
    }
  }

  /** Every remaining export is re-exported exactly once, in iteration order, under its possibly
      renamed name, at the id its key holds. */
  lemma JoinFunctionsExports(g: Graph<Function>, keep: Option<set<ExportIdentifier<IdentifierFunction>>>,
                             clashing: set<ExportIdentifier<IdentifierFunction>>, renames: RenameMap,
                             importOrder: seq<Import<Function>>, nodeOrder: seq<Node<Function>>,
                             exportOrder: seq<Export<Function>>)
    requires WellFormed(g) && AllReachSources(g) && KeyedGraph(g)
    requires IsEnumeration(importOrder, RemainingImports(g)) && IsEnumeration(nodeOrder, g.nodes)
    requires IsEnumeration(exportOrder, RemainingExports(g, keep))
    ensures var r := JoinedFunctions(g, keep, clashing, renames, importOrder, nodeOrder, exportOrder);
            && |r.merged.exports| == |exportOrder|
            && forall k | 0 <= k < |exportOrder| ::
                 && ExportRef(exportOrder[k]) in r.mapping.funcs
                 && r.merged.exports[k] == ExportEntryOf(r.mapping.funcs, renames, exportOrder[k])
  {
    var s3 := Redirected(EmptyMerging(), ReduceDependencies(g, keep, clashing), importOrder, nodeOrder);
    RedirectedExportsEmpty(EmptyMerging(), ReduceDependencies(g, keep, clashing), importOrder, nodeOrder);
    RemainingExportsKeyed(g, keep, clashing, renames, importOrder, nodeOrder, exportOrder);
    ExportsFromEmpty(s3, renames, exportOrder);
    assert JoinedFunctions(g, keep, clashing, renames, importOrder, nodeOrder, exportOrder)
           == AddExportFunctions(s3, renames, exportOrder);
  }

  /** Step 4 from a merging without exports: one entry per export, in order. */
  lemma ExportsFromEmpty(s: Merging, renames: RenameMap, exports: seq<Export<Function>>)
    requires s.merged.exports == []
    requires forall e | e in exports :: ExportRef(e) in s.mapping.funcs
    ensures var r := AddExportFunctions(s, renames, exports);
            && |r.merged.exports| == |exports|
            && forall k | 0 <= k < |exports| ::
                 && ExportRef(exports[k]) in r.mapping.funcs
                 && r.merged.exports[k] == ExportEntryOf(r.mapping.funcs, renames, exports[k])
  {
    AddExportFunctionsAll(s, renames, exports);
  }

  /** Steps 1 to 3 add no export. */
  lemma RedirectedExportsEmpty(s: Merging, reduced: ReducedDependencies<Function>,
                               importOrder: seq<Import<Function>>, nodeOrder: seq<Node<Function>>)
    requires forall n | n in nodeOrder :: n in reduced.reductionMap
    ensures Redirected(s, reduced, importOrder, nodeOrder).merged.exports == s.merged.exports
  {
    var s1 := AddImportFunctions(s, importOrder);
    assert s1.merged.exports == s.merged.exports;
    var s2 := AddLocalFunctions(s1, LocalsOf(nodeOrder));
    assert s2.merged.exports == s1.merged.exports;
  }

  /** Before step 4, the key of every remaining export has an id. */
  lemma RemainingExportsKeyed(g: Graph<Function>, keep: Option<set<ExportIdentifier<IdentifierFunction>>>,
                              clashing: set<ExportIdentifier<IdentifierFunction>>, renames: RenameMap,
                              importOrder: seq<Import<Function>>, nodeOrder: seq<Node<Function>>,
                              exportOrder: seq<Export<Function>>)
    requires WellFormed(g) && AllReachSources(g) && KeyedGraph(g)
    requires IsEnumeration(importOrder, RemainingImports(g)) && IsEnumeration(nodeOrder, g.nodes)
    requires IsEnumeration(exportOrder, RemainingExports(g, keep))
    ensures forall e | e in exportOrder ::
              ExportRef(e) in Redirected(EmptyMerging(), ReduceDependencies(g, keep, clashing), importOrder, nodeOrder).mapping.funcs
  {
    forall e | e in exportOrder
      ensures ExportRef(e) in Redirected(EmptyMerging(), ReduceDependencies(g, keep, clashing), importOrder, nodeOrder).mapping.funcs
    {
      JoinFunctionsRedirectsNode(g, keep, clashing, renames, importOrder, nodeOrder, exportOrder, ExportNode(e));
      assert ToMappingRef(ExportNode(e)) == ExportRef(e);
    }
  }

  /** A re-exported function is the function the export's source stands for: exporting a
      re-export of an import of a local exports the local itself. */
  lemma JoinFunctionsExportsDenote(g: Graph<Function>, keep: Option<set<ExportIdentifier<IdentifierFunction>>>,
                                   clashing: set<ExportIdentifier<IdentifierFunction>>, renames: RenameMap,
                                   importOrder: seq<Import<Function>>, nodeOrder: seq<Node<Function>>,
                                   exportOrder: seq<Export<Function>>, k: nat)
    requires WellFormed(g) && AllReachSources(g) && KeyedGraph(g)
    requires IsEnumeration(importOrder, RemainingImports(g)) && IsEnumeration(nodeOrder, g.nodes)
    requires IsEnumeration(exportOrder, RemainingExports(g, keep))
    requires k < |exportOrder|
    ensures var r := JoinedFunctions(g, keep, clashing, renames, importOrder, nodeOrder, exportOrder);
            && k < |r.merged.exports| && r.merged.exports[k].item.FunctionItem?
            && r.merged.exports[k].item.func < |r.merged.funcs|
            && Denotes(r.merged.funcs[r.merged.exports[k].item.func], ReduceDependencies(g, keep, clashing).reductionMap[ExportNode(exportOrder[k])])
  {
    JoinFunctionsExports(g, keep, clashing, renames, importOrder, nodeOrder, exportOrder);
    JoinFunctionsRedirectsNode(g, keep, clashing, renames, importOrder, nodeOrder, exportOrder, ExportNode(exportOrder[k]));
    assert ToMappingRef(ExportNode(exportOrder[k])) == ExportRef(exportOrder[k]);
  }

  // ---------------------------------------------------------------------------------------
  // `join` for globals: only the remaining imports

  /** `add_new_import_global`: a new imported global for the import. */
  function ImportedGlobalOf(i: Import<Global>): NewGlobal {
    ImportedGlobal(i.exportingModule.name, i.exportingIdentifier.identifier, i.ty)
  }

  /** One remaining global import: added under the next id, recorded under its key. */
  function AddImportGlobal(s: Merging, i: Import<Global>): Merging {
    Merging(s.merged.(globals := s.merged.globals + [ImportedGlobalOf(i)]),
            s.mapping.(globals := s.mapping.globals[ImportRef(i) := |s.merged.globals|]))
  }

  /** `MergedJoinable::join` for globals: only step 1 is live; redirection, locals and exports
      of globals are not handled by it. Functions, exports and the other maps are untouched. */
  function JoinGlobals(s: Merging, imports: seq<Import<Global>>): (r: Merging)
    ensures |r.merged.globals| == |s.merged.globals| + |imports|
    ensures r.merged.globals[..|s.merged.globals|] == s.merged.globals
    ensures forall k | 0 <= k < |imports| :: r.merged.globals[|s.merged.globals| + k] == ImportedGlobalOf(imports[k])
    ensures r.merged.(globals := s.merged.globals) == s.merged
    ensures r.mapping.(globals := s.mapping.globals) == s.mapping
    decreases |imports|
  {
    if |imports| == 0 then s
    else
      var prefix := imports[..|imports| - 1];
      var t := JoinGlobals(s, prefix);
      assert forall k | 0 <= k < |prefix| :: prefix[k] == imports[k];
      var r := AddImportGlobal(t, imports[|imports| - 1]);
      assert r.merged.globals[..|s.merged.globals|] == t.merged.globals[..|s.merged.globals|];
      r
  }

  /** With no two imports sharing a key, the k-th remaining global import's key maps to the
      k-th new global. */
  lemma {:induction false} JoinGlobalsIds(s: Merging, imports: seq<Import<Global>>, k: nat)
    requires forall a, b | 0 <= a < b < |imports| :: ImportRef(imports[a]) != ImportRef(imports[b])
    requires k < |imports|
    ensures ImportRef(imports[k]) in JoinGlobals(s, imports).mapping.globals
    ensures JoinGlobals(s, imports).mapping.globals[ImportRef(imports[k])] == |s.merged.globals| + k
    decreases |imports|
  {
    var prefix := imports[..|imports| - 1];
    if k < |imports| - 1 {
      assert prefix[k] == imports[k];
      JoinGlobalsIds(s, prefix, k);
    }
  }

  // ---------------------------------------------------------------------------------------
  // The merger: `new`, the bookkeeping of `include`, and `build`

  /** The merger's state: the merged module and its maps, the (name given for the merge, module name) pairs
      seen so far, and the new ids of the start functions seen so far. */
  datatype MergerState = MergerState(merging: Merging, names: seq<(string, string)>, starts: seq<NewId>)

  /** `Merger::new`: functions are joined first, then globals; tables and memories are not. */
  function MergerNew(functions: ReducedDependencies<Function>, renames: RenameMap,
                     importOrder: seq<Import<Function>>, nodeOrder: seq<Node<Function>>,
                     exportOrder: seq<Export<Function>>, globalImportOrder: seq<Import<Global>>): (r: MergerState)
    requires forall n | n in nodeOrder :: n in functions.reductionMap
    ensures r.names == [] && r.starts == []
    ensures r.merging.merged.start.None? && r.merging.merged.name.None?
    ensures |r.merging.merged.globals| == |globalImportOrder|
    ensures r.merging.merged.tables == [] && r.merging.merged.memoryCount == 0
    ensures r.merging.mapping.tables == map[] && r.merging.mapping.memories == map[]
  {
    var joined := JoinFunctions(EmptyMerging(), functions, renames, importOrder, nodeOrder, exportOrder);
    MergerState(JoinGlobals(joined, globalImportOrder), [], [])
  }

  /** `include` aborts either with a library error or with a panic. */
  datatype Halt = Raised(error: Error) | Panicked(panic: Panic)

  /** What a function of the included module is, as `include` distinguishes it. A local
      function carries its old body, the id of the body of the new function it is copied into
      (walrus made it when the join built that function) and the first sequence id the merged
      module hands out while copying it. */
  datatype FunctionKind =
    | ImportedFunctionKind
    | LocalFunctionKind(body: WalrusCopy.Sequence, newBody: WalrusCopy.SeqId, nextSeq: WalrusCopy.SeqId)
    | UninitializedFunctionKind

  /** One function of the loop of `include`: an imported function is skipped; a local
      function's new id is looked up under (module, old id) and unwrapped, and its body is then
      copied with the module's id maps (`BodyMaps`); an uninitialized function is a parse error. */
  function IncludeFunction(m: Mapping, considering: IdentifierModule, maps: WalrusCopy.IdMaps, moduleName: string,
                           kind: FunctionKind, id: OldId): (r: Result<(), Halt>)
    ensures kind.ImportedFunctionKind? ==> r.Success?
    ensures kind.UninitializedFunctionKind? ==> r == Failure(Raised(Parse(UninitializedMessage(moduleName))))
    ensures kind.LocalFunctionKind? && (considering, id) !in m.funcs ==> r == Failure(Panicked(KeyMissing))
    ensures kind.LocalFunctionKind? && (considering, id) in m.funcs ==>
              var copy := WalrusCopy.CopyFunction(kind.body, kind.newBody, kind.nextSeq, maps);
              r == if copy.Success? then Success(()) else Failure(Panicked(copy.error))
  {
    match kind
    case ImportedFunctionKind => Success(())
    case LocalFunctionKind(body, newBody, nextSeq) =>
      if (considering, id) !in m.funcs then Failure(Panicked(KeyMissing))
      else
        var copy := WalrusCopy.CopyFunction(body, newBody, nextSeq, maps);
        if copy.Success? then Success(()) else Failure(Panicked(copy.error))
    case UninitializedFunctionKind => Failure(Raised(Parse(UninitializedMessage(moduleName))))
  }

  /** The function loop of `include`: functions are visited in id order and the first failure
      aborts. The copied bodies go to the merged module, whose code is not part of this model. */
  function IncludeFunctions(m: Mapping, considering: IdentifierModule, maps: WalrusCopy.IdMaps, moduleName: string,
                            kinds: seq<FunctionKind>): Result<(), Halt>
    decreases |kinds|
  {
    if |kinds| == 0 then Success(())
    else
      var id := |kinds| - 1;
      var _ :- IncludeFunctions(m, considering, maps, moduleName, kinds[..id]);
      IncludeFunction(m, considering, maps, moduleName, kinds[id], id)
  }

  /** The parse error's message names the module. */
  function UninitializedMessage(moduleName: string): string {
    "walrus::FunctionKind::Uninitialized during parsing of " + moduleName
  }

  /** A function the loop fails on. */
  predicate FunctionFails(m: Mapping, considering: IdentifierModule, maps: WalrusCopy.IdMaps, kinds: seq<FunctionKind>, id: nat)
    requires id < |kinds|
  {
    || kinds[id].UninitializedFunctionKind?
    || (&& kinds[id].LocalFunctionKind?
        && ((considering, id) !in m.funcs
            || WalrusCopy.CopyFunction(kinds[id].body, kinds[id].newBody, kinds[id].nextSeq, maps).Failure?))
  }

  /** Why a failing function fails: a parse error naming the module for an uninitialized one, a
      missing key for a local one without a new id, and otherwise the panic of its body copy. */
  function FunctionHalt(m: Mapping, considering: IdentifierModule, maps: WalrusCopy.IdMaps, moduleName: string,
                        kinds: seq<FunctionKind>, id: nat): Halt
    requires id < |kinds| && FunctionFails(m, considering, maps, kinds, id)
  {
    if kinds[id].UninitializedFunctionKind? then Raised(Parse(UninitializedMessage(moduleName)))
    else if (considering, id) !in m.funcs then Panicked(KeyMissing)
    else Panicked(WalrusCopy.CopyFunction(kinds[id].body, kinds[id].newBody, kinds[id].nextSeq, maps).error)
  }

  /** Running steps in order and stopping at the first failure. */
  function FirstHalt(steps: seq<Result<(), Halt>>): Result<(), Halt>
    decreases |steps|
  {
    if |steps| == 0 then Success(())
    else
      var _ :- FirstHalt(steps[..|steps| - 1]);
      steps[|steps| - 1]
  }

  /** Steps run in order succeed exactly when every step does; otherwise they report the first
      failing step's failure. */
  lemma {:induction false} FirstHaltIsFirst(steps: seq<Result<(), Halt>>)
    ensures FirstHalt(steps).Success? <==> forall k | 0 <= k < |steps| :: steps[k].Success?
    ensures FirstHalt(steps).Failure? ==>
              exists k | 0 <= k < |steps| ::
                steps[k].Failure? && (forall j | 0 <= j < k :: steps[j].Success?) && FirstHalt(steps).error == steps[k].error
    decreases |steps|
  {
    if |steps| > 0 {
      var prefix := steps[..|steps| - 1];
      FirstHaltIsFirst(prefix);
      assert forall j | 0 <= j < |prefix| :: prefix[j] == steps[j];
      if FirstHalt(prefix).Failure? {
        var k :| 0 <= k < |prefix| && prefix[k].Failure? && (forall j | 0 <= j < k :: prefix[j].Success?)
                 && FirstHalt(prefix).error == prefix[k].error;
        assert steps[k].Failure?;
      }
    }
  }

  /** Every function's step of the loop, in id order. */
  function FunctionSteps(m: Mapping, considering: IdentifierModule, maps: WalrusCopy.IdMaps, moduleName: string,
                         kinds: seq<FunctionKind>): (r: seq<Result<(), Halt>>)
    ensures |r| == |kinds|
    ensures forall id | 0 <= id < |kinds| :: r[id] == IncludeFunction(m, considering, maps, moduleName, kinds[id], id)
  {
    seq(|kinds|, id requires 0 <= id < |kinds| => IncludeFunction(m, considering, maps, moduleName, kinds[id], id))
  }

  /** The loop is its steps run in order. */
  lemma {:induction false} IncludeFunctionsSteps(m: Mapping, considering: IdentifierModule, maps: WalrusCopy.IdMaps,
                                                 moduleName: string, kinds: seq<FunctionKind>)
    ensures IncludeFunctions(m, considering, maps, moduleName, kinds) == FirstHalt(FunctionSteps(m, considering, maps, moduleName, kinds))
    decreases |kinds|
  {
    if |kinds| > 0 {
      var id := |kinds| - 1;
      IncludeFunctionsSteps(m, considering, maps, moduleName, kinds[..id]);
      var steps := FunctionSteps(m, considering, maps, moduleName, kinds);
      assert steps[..id] == FunctionSteps(m, considering, maps, moduleName, kinds[..id]);
    }
  }

  /** The function loop succeeds exactly when no function fails; otherwise it reports the
      failure of the first failing function, whether that is a parse error, an unmapped local
      function or a panic while copying a body. */
  lemma IncludeFunctionsFirstFailure(m: Mapping, considering: IdentifierModule, maps: WalrusCopy.IdMaps,
                                     moduleName: string, kinds: seq<FunctionKind>)
    ensures IncludeFunctions(m, considering, maps, moduleName, kinds).Success?
            <==> forall id | 0 <= id < |kinds| :: !FunctionFails(m, considering, maps, kinds, id)
    ensures IncludeFunctions(m, considering, maps, moduleName, kinds).Failure? ==>
              exists id | 0 <= id < |kinds| ::
                && FunctionFails(m, considering, maps, kinds, id)
                && (forall j | 0 <= j < id :: !FunctionFails(m, considering, maps, kinds, j))
                && IncludeFunctions(m, considering, maps, moduleName, kinds).error == FunctionHalt(m, considering, maps, moduleName, kinds, id)
  {
    var steps := FunctionSteps(m, considering, maps, moduleName, kinds);
    IncludeFunctionsSteps(m, considering, maps, moduleName, kinds);
    FirstHaltIsFirst(steps);
    forall id | 0 <= id < |kinds|
      ensures steps[id].Success? <==> !FunctionFails(m, considering, maps, kinds, id)
      ensures steps[id].Failure? ==> steps[id].error == FunctionHalt(m, considering, maps, moduleName, kinds, id)
    {
      StepFails(m, considering, maps, moduleName, kinds, id);
    }
  }

  /** One function's step fails exactly when the function fails, with its halt. */
  lemma StepFails(m: Mapping, considering: IdentifierModule, maps: WalrusCopy.IdMaps, moduleName: string,
                  kinds: seq<FunctionKind>, id: nat)
    requires id < |kinds|
    ensures IncludeFunction(m, considering, maps, moduleName, kinds[id], id).Success? <==> !FunctionFails(m, considering, maps, kinds, id)
    ensures IncludeFunction(m, considering, maps, moduleName, kinds[id], id).Failure? ==>
              IncludeFunction(m, considering, maps, moduleName, kinds[id], id).error == FunctionHalt(m, considering, maps, moduleName, kinds, id)
  {
  }

  /** For a local function whose body opens no block, the loop's step succeeds exactly when the
      function has a new id and every id each instruction names is mapped for this module (the
      body's own sequence resolving to the new body); the new body is then the instructions
      rewritten in order. */
  lemma IncludeFlatFunction(m: Mapping, considering: IdentifierModule, maps: WalrusCopy.IdMaps, moduleName: string,
                            kind: FunctionKind, id: OldId)
    requires kind.LocalFunctionKind? && WalrusCopy.Flat(kind.body.items)
    ensures IncludeFunction(m, considering, maps, moduleName, kind, id).Success?
            <==> && (considering, id) in m.funcs
                 && forall k | 0 <= k < |kind.body.items| ::
                      WalrusCopy.AllMapped(WalrusCopy.References(kind.body.items[k].instr), maps,
                                           map[kind.body.id := kind.newBody])
  {
    WalrusCopy.CopyFlatFunctionMapped(kind.body, kind.newBody, kind.nextSeq, maps);
  }

  /** A body that calls function 5 cannot be copied when function 5 has no new id. */
  lemma UnmappedCallCopyPanics(body: WalrusCopy.Sequence, maps: WalrusCopy.IdMaps)
    requires body == WalrusCopy.Sequence(0, [WalrusCopy.Item(WalrusCopy.Call(5), [])])
    requires 5 !in maps.funcs
    ensures WalrusCopy.CopyFunction(body, 0, 1, maps) == Failure(KeyMissing)
  {
    assert WalrusCopy.Flat(body.items);
    WalrusCopy.CopyFlatFunction(body, 0, 1, maps);
    WalrusCopy.RewriteAllCons(body.items, maps, map[0 := 0], 1);
    assert WalrusCopy.RewriteInstr(WalrusCopy.Call(5), maps, map[0 := 0], 1) == Failure(KeyMissing);
  }

  /** A body copy that panics aborts the loop before a later function is looked at: the first
      function calls function 5, which has no new id, so the uninitialized second function is
      never reached and the loop panics instead of raising the parse error. */
  lemma UnmappedCallPanicsFirst(m: Mapping, considering: IdentifierModule, rest: WalrusCopy.IdMaps, moduleName: string)
    requires (considering, 0) in m.funcs && (considering, 5) !in m.funcs
    ensures IncludeFunctions(m, considering, BodyMaps(m, considering, rest), moduleName,
                             [LocalFunctionKind(WalrusCopy.Sequence(0, [WalrusCopy.Item(WalrusCopy.Call(5), [])]), 0, 1),
                              UninitializedFunctionKind])
            == Failure(Panicked(KeyMissing))
  {
    var body := WalrusCopy.Sequence(0, [WalrusCopy.Item(WalrusCopy.Call(5), [])]);
    var kinds := [LocalFunctionKind(body, 0, 1), UninitializedFunctionKind];
    var maps := BodyMaps(m, considering, rest);
    UnmappedCallCopyPanics(body, maps);
    assert IncludeFunction(m, considering, maps, moduleName, kinds[0], 0) == Failure(Panicked(KeyMissing));
    IncludeFunctionsSteps(m, considering, maps, moduleName, kinds);
    FirstHaltHeadFails(FunctionSteps(m, considering, maps, moduleName, kinds));
  }

  /** When the first step fails, the steps fail with it. */
  lemma FirstHaltHeadFails(steps: seq<Result<(), Halt>>)
    requires |steps| > 0 && steps[0].Failure?
    ensures FirstHalt(steps) == steps[0]
  {
    FirstHaltIsFirst(steps);
  }

  /** An export of the included module: its name, kind and old id. */
  datatype ModuleExport = ModuleExport(exportName: string, kind: ExportKind, oldId: OldId)

  /** The remaining exports of tables, memories and globals, as reduced by the resolver. */
  datatype RemainingSets = RemainingSets(tables: set<Export<Table>>, memories: set<Export<Memory>>, globals: set<Export<Global>>)

  /** The type of the new item `id` of a kind, when the merged module has one (a walrus arena
      lookup of an id it never issued panics). */
  function NewItemType(merged: MergedModule, kind: ExportKind, id: NewId): Option<ItemType> {
    match kind
    case FunctionKind => None
    case TableKind => if id < |merged.tables| then Some(TableTy(merged.tables[id])) else None
    case MemoryKind => if id < merged.memoryCount then Some(MemoryTy) else None
    case GlobalKind => if id < |merged.globals| then Some(merged.globals[id].globalTy) else None
  }

  /** The old-to-new map of a kind. */
  function MapOf(m: Mapping, kind: ExportKind): map<MappingKey, NewId> {
    match kind
    case FunctionKind => m.funcs
    case TableKind => m.tables
    case MemoryKind => m.memories
    case GlobalKind => m.globals
  }

  /** The export item of a kind pointing at a new id. */
  function ItemOf(kind: ExportKind, id: NewId): ExportItem {
    match kind
    case FunctionKind => FunctionItem(id)
    case TableKind => TableItem(id)
    case MemoryKind => MemoryItem(id)
    case GlobalKind => GlobalItem(id)
  }

  /** Whether the export, typed with the new item's type, is among the kind's remaining
      exports, and the name it is re-exported under. */
  function RemainingName(sets: RemainingSets, renames: RenameMap, owner: IdentifierModule, x: ModuleExport, ty: ItemType): Option<string> {
    match x.kind
    case FunctionKind => None
    case TableKind =>
      var e: Export<Table> := Export(owner, IdentifierItem(x.exportName), x.oldId, ty);
      if e in sets.tables then Some(RenameIfRequired(renames.tables, e).identifier) else None
    case MemoryKind =>
      var e: Export<Memory> := Export(owner, IdentifierItem(x.exportName), x.oldId, ty);
      if e in sets.memories then Some(RenameIfRequired(renames.memories, e).identifier) else None
    case GlobalKind =>
      var e: Export<Global> := Export(owner, IdentifierItem(x.exportName), x.oldId, ty);
      if e in sets.globals then Some(RenameIfRequired(renames.globals, e).identifier) else None
  }

  /** The export loop of `include` for one export. A function export only carries debug
      checks. A table, memory or global export looks its new id up (unwrapped) and the new
      item (an arena lookup); when the export, typed with the new item's type, remains, it is
      re-exported under its possibly renamed name, and otherwise nothing happens. */
  function IncludeExport(st: MergerState, considering: IdentifierModule, x: ModuleExport, sets: RemainingSets, renames: RenameMap)
    : Result<MergerState, Panic>
  {
    if x.kind.FunctionKind? then Success(st)
    else
      var m := MapOf(st.merging.mapping, x.kind);
      if (considering, x.oldId) !in m then Failure(KeyMissing)
      else
        var id := m[(considering, x.oldId)];
        var ty := NewItemType(st.merging.merged, x.kind, id);
        if ty.None? then Failure(KeyMissing)
        else
          var name := RemainingName(sets, renames, considering, x, ty.value);
          if name.None? then Success(st)
          else
            var merged := st.merging.merged;
            Success(st.(merging := st.merging.(merged := merged.(exports := merged.exports + [ExportEntry(name.value, ItemOf(x.kind, id))]))))
  }

  /** One export of a table, memory or global fails exactly when its key or its new item is
      missing; on success it adds at most one export entry, of its own kind, at the new id of
      its key, and touches nothing else. */
  lemma IncludeExportEffect(st: MergerState, considering: IdentifierModule, x: ModuleExport, sets: RemainingSets, renames: RenameMap)
    requires !x.kind.FunctionKind?
    ensures var r := IncludeExport(st, considering, x, sets, renames);
            var m := MapOf(st.merging.mapping, x.kind);
            && (r.Success? <==> (considering, x.oldId) in m && NewItemType(st.merging.merged, x.kind, m[(considering, x.oldId)]).Some?)
            && (r.Failure? ==> r.error == KeyMissing)
            && (r.Success? ==>
                  && r.value.merging.mapping == st.merging.mapping
                  && r.value.merging.merged.(exports := st.merging.merged.exports) == st.merging.merged
                  && r.value.names == st.names && r.value.starts == st.starts
                  && var added := r.value.merging.merged.exports[|st.merging.merged.exports|..];
                     && r.value.merging.merged.exports[..|st.merging.merged.exports|] == st.merging.merged.exports
                     && |added| <= 1
                     && (|added| == 1 <==> RemainingName(sets, renames, considering, x, NewItemType(st.merging.merged, x.kind, m[(considering, x.oldId)]).value).Some?)
                     && (|added| == 1 ==> added[0].item == ItemOf(x.kind, m[(considering, x.oldId)])))
  {
  }

  /** A function export adds nothing and cannot fail. */
  lemma IncludeFunctionExportInert(st: MergerState, considering: IdentifierModule, x: ModuleExport, sets: RemainingSets, renames: RenameMap)
    requires x.kind.FunctionKind?
    ensures IncludeExport(st, considering, x, sets, renames) == Success(st)
  {
  }

  /** The export loop: every export in order; the first failure aborts. */
  function IncludeExports(st: MergerState, considering: IdentifierModule, xs: seq<ModuleExport>, sets: RemainingSets, renames: RenameMap)
    : (r: Result<MergerState, Panic>)
    ensures r.Success? ==> r.value.merging.mapping == st.merging.mapping && r.value.starts == st.starts && r.value.names == st.names
    ensures r.Success? ==> r.value.merging.merged.(exports := st.merging.merged.exports) == st.merging.merged
    decreases |xs|
  {
    if |xs| == 0 then Success(st)
    else
      var t :- IncludeExports(st, considering, xs[..|xs| - 1], sets, renames);
      var r := IncludeExport(t, considering, xs[|xs| - 1], sets, renames);
      if r.Success? then
        IncludeExportPreserves(t, considering, xs[|xs| - 1], sets, renames);
        r
      else r
  }

  /** One export keeps everything but the exports. */
  lemma IncludeExportPreserves(st: MergerState, considering: IdentifierModule, x: ModuleExport, sets: RemainingSets, renames: RenameMap)
    requires IncludeExport(st, considering, x, sets, renames).Success?
    ensures var r := IncludeExport(st, considering, x, sets, renames).value;
            r.merging.mapping == st.merging.mapping && r.starts == st.starts && r.names == st.names
            && r.merging.merged.(exports := st.merging.merged.exports) == st.merging.merged
  {
  }

  /** The start function of the included module, if it has one: its new id is looked up
      (unwrapped) and collected after the earlier modules' ones. */
  function IncludeStart(st: MergerState, considering: IdentifierModule, start: Option<OldId>): (r: Result<MergerState, Panic>)
    ensures start.None? ==> r == Success(st)
    ensures start.Some? ==> (r.Success? <==> (considering, start.value) in st.merging.mapping.funcs)
    ensures r.Failure? ==> r.error == KeyMissing
    ensures r.Success? && start.Some? ==>
              r.value == st.(starts := st.starts + [st.merging.mapping.funcs[(considering, start.value)]])
  {
    match start
    case None => Success(st)
    case Some(oldStart) =>
      if (considering, oldStart) in st.merging.mapping.funcs
      then Success(st.(starts := st.starts + [st.merging.mapping.funcs[(considering, oldStart)]]))
      else Failure(KeyMissing)
  }

  /** The name section of the included module, if it has one, is recorded together with the
      name the module was given for the merge. */
  function IncludeName(st: MergerState, moduleName: string, name: Option<string>): (r: MergerState)
    ensures name.None? ==> r == st
    ensures name.Some? ==> r.names == st.names + [(moduleName, name.value)]
    ensures r.merging == st.merging && r.starts == st.starts
  {
    match name
    case None => st
    case Some(n) => st.(names := st.names + [(moduleName, n)])
  }

  /** What `include` needs to know of a parsed module: its functions, the id maps of the spaces
      whose copying is not part of this model (data, elements, types), its exports, start
      function and name. */
  datatype IncludedModule = IncludedModule(
    fileName: string, functions: seq<FunctionKind>, bodyMaps: WalrusCopy.IdMaps, exports: seq<ModuleExport>,
    start: Option<OldId>, name: Option<string>)

  /** `include`, as far as its bookkeeping goes: the function loop with its body copies, the
      export loop, the start function and the name, in that order. The copying of data,
      elements, tables, memories, globals and custom sections is not part of this model. */
  function Include(st: MergerState, x: IncludedModule, sets: RemainingSets, renames: RenameMap): Result<MergerState, Halt> {
    var considering := IdentifierModule(x.fileName);
    var _ :- IncludeFunctions(st.merging.mapping, considering, BodyMaps(st.merging.mapping, considering, x.bodyMaps), x.fileName, x.functions);
    var afterExports := IncludeExports(st, considering, x.exports, sets, renames);
    if afterExports.Failure? then Failure(Panicked(afterExports.error))
    else
      var afterStart := IncludeStart(afterExports.value, considering, x.start);
      if afterStart.Failure? then Failure(Panicked(afterStart.error))
      else Success(IncludeName(afterStart.value, x.fileName, x.name))
  }

  /** Including modules in order collects their start functions in that order: a module's
      start function follows those of the modules included before it. */
  lemma IncludeCollectsStart(st: MergerState, x: IncludedModule, sets: RemainingSets, renames: RenameMap)
    requires Include(st, x, sets, renames).Success?
    ensures var r := Include(st, x, sets, renames).value;
            && x.start.None? ==> r.starts == st.starts
    ensures var r := Include(st, x, sets, renames).value;
            x.start.Some? ==>
              && (IdentifierModule(x.fileName), x.start.value) in st.merging.mapping.funcs
              && r.starts == st.starts + [st.merging.mapping.funcs[(IdentifierModule(x.fileName), x.start.value)]]
    ensures var r := Include(st, x, sets, renames).value;
            x.name.Some? ==> r.names == st.names + [(x.fileName, x.name.value)]
    ensures var r := Include(st, x, sets, renames).value;
            x.name.None? ==> r.names == st.names
    ensures Include(st, x, sets, renames).value.merging.mapping == st.merging.mapping
  {
  }

  // ---------------------------------------------------------------------------------------
  // `build`

  /** `module::name`, for one recorded name. */
  function FormatName(entry: (string, string)): string {
    entry.0 + "::" + entry.1
  }

  /** `join("-")`: the parts separated by single dashes. */
  function JoinWithDash(parts: seq<string>): (r: string)
    decreases |parts|
  {
    if |parts| == 0 then ""
    else if |parts| == 1 then parts[0]
    else JoinWithDash(parts[..|parts| - 1]) + "-" + parts[|parts| - 1]
  }

  /** The merged module's name: every recorded name formatted as `module::name`, in include
      order, joined with dashes. */
  function MergedName(names: seq<(string, string)>): string {
    JoinWithDash(seq(|names|, k requires 0 <= k < |names| => FormatName(names[k])))
  }

  /** `build`: when start functions were collected, a new function that calls each of them in
      include order is appended and becomes the start function; the name is always set. */
  function Build(st: MergerState): (r: MergedModule)
    ensures r.name == Some(MergedName(st.names))
    ensures r.(funcs := st.merging.merged.funcs, start := st.merging.merged.start, name := st.merging.merged.name) == st.merging.merged
  {
    var merged := st.merging.merged;
    var withStart :=
      if |st.starts| > 0 then merged.(funcs := merged.funcs + [MergedStart(st.starts)], start := Some(|merged.funcs|))
      else merged;
    withStart.(name := Some(MergedName(st.names)))
  }

  /** With start functions collected, the merged start is a new last function calling exactly
      them, in include order; without any, functions and start are left as they were. */
  lemma BuildStart(st: MergerState)
    ensures |st.starts| > 0 ==>
              && Build(st).funcs[..|st.merging.merged.funcs|] == st.merging.merged.funcs
              && |Build(st).funcs| == |st.merging.merged.funcs| + 1
              && Build(st).start == Some(|st.merging.merged.funcs|)
              && Build(st).funcs[Build(st).start.value] == MergedStart(st.starts)
    ensures |st.starts| == 0 ==> Build(st).funcs == st.merging.merged.funcs && Build(st).start == st.merging.merged.start
  {
  }

  /** The merged name of a single module is `module::name`; each further module adds a dash
      and its own `module::name`, so the parts follow include order. */
  lemma MergedNameAppend(names: seq<(string, string)>, entry: (string, string))
    ensures MergedName([entry]) == entry.0 + "::" + entry.1
    ensures |names| > 0 ==> MergedName(names + [entry]) == MergedName(names) + "-" + FormatName(entry)
    ensures MergedName([]) == ""
  {
    var all := names + [entry];
    var parts := seq(|all|, k requires 0 <= k < |all| => FormatName(all[k]));
    assert parts[..|parts| - 1] == seq(|names|, k requires 0 <= k < |names| => FormatName(names[k]));
  }

  /** The pieces of a string between dashes, the inverse of `JoinWithDash`. */
  function SplitOnDash(s: string): (r: seq<string>)
    ensures |r| >= 1
    decreases |s|
  {
    if |s| == 0 then [""]
    else
      var init := SplitOnDash(s[..|s| - 1]);
      var c := s[|s| - 1];
      if c == '-' then init + [""] else init[..|init| - 1] + [init[|init| - 1] + [c]]
  }

  lemma {:induction false} SplitWithoutDash(b: string)
    requires '-' !in b
    ensures SplitOnDash(b) == [b]
    decreases |b|
  {
    if |b| > 0 {
      SplitWithoutDash(b[..|b| - 1]);
      assert b[..|b| - 1] + [b[|b| - 1]] == b;
    }
  }

  lemma {:induction false} SplitAfterDash(x: string, b: string)
    requires '-' !in b
    ensures SplitOnDash(x + "-" + b) == SplitOnDash(x) + [b]
    decreases |b|
  {
    if |b| == 0 {
      assert (x + "-" + b)[..|x|] == x;
    } else {
      var b' := b[..|b| - 1];
      SplitAfterDash(x, b');
      assert (x + "-" + b)[..|x + "-" + b| - 1] == x + "-" + b';
      assert b' + [b[|b| - 1]] == b;
    }
  }

  /** Joining dash-free parts with dashes and splitting the result at dashes gives the parts
      back: when no file or module name contains a dash, the merged name determines the
      recorded names. */
  lemma {:induction false} SplitJoinWithDash(parts: seq<string>)
    requires |parts| > 0
    requires forall k | 0 <= k < |parts| :: '-' !in parts[k]
    ensures SplitOnDash(JoinWithDash(parts)) == parts
    decreases |parts|
  {
    if |parts| == 1 {
      SplitWithoutDash(parts[0]);
    } else {
      var init, last := parts[..|parts| - 1], parts[|parts| - 1];
      assert forall k | 0 <= k < |init| :: init[k] == parts[k];
      SplitJoinWithDash(init);
      assert JoinWithDash(parts) == JoinWithDash(init) + "-" + last;
      SplitAfterDash(JoinWithDash(init), last);
      assert init + [last] == parts;
    }
  }

  /** A name containing a dash breaks that: two different lists of parts join to the same
      merged name. */
  lemma JoinWithDashAmbiguous()
    ensures JoinWithDash(["a-b"]) == JoinWithDash(["a", "b"])
  {
  }
}
