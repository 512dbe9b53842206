/** Copying one function body into the merged module (`WasmFunctionCopy`). The body is walked
    depth first; every instruction is re-emitted with its ids rewritten into the merged module's
    index spaces, and the `SequenceStack` keeps track of which new instruction sequence
    corresponds to which old one, so that nested blocks and branch labels land in the right
    place. */
module WalrusCopy {
  import opened Wrappers
  import opened Kinds
  import opened Collections

  /** The id of an instruction sequence (a function body, a block, a loop, an arm of an if). */
  type SeqId = nat

  // ---------------------------------------------------------------------------------------
  // The sequence stack

  /** The open sequences of the old body and the new body, innermost last, and which new
      sequence every old sequence seen so far was copied into. */
  datatype SequenceStack = SequenceStack(oldStack: seq<SeqId>, newStack: seq<SeqId>, mapping: map<SeqId, SeqId>)

  /** `SequenceStack::new`: the function bodies themselves are open, and correspond. */
  function NewSequenceStack(before: SeqId, after: SeqId): SequenceStack {
    SequenceStack([before], [after], map[before := after])
  }

  /** `push`: open a pair of corresponding sequences. */
  function Push(s: SequenceStack, before: SeqId, after: SeqId): SequenceStack {
    SequenceStack(s.oldStack + [before], s.newStack + [after], s.mapping[before := after])
  }

  /** `pop`: close the innermost pair, unwrapping both stacks and checking the popped new
      sequence is the one its old sequence is mapped to. */
  function Pop(s: SequenceStack): Result<(SequenceStack, (SeqId, SeqId)), Panic> {
    if |s.oldStack| == 0 || |s.newStack| == 0 then Failure(EmptyStack)
    else
      var before, after := s.oldStack[|s.oldStack| - 1], s.newStack[|s.newStack| - 1];
      if before !in s.mapping then Failure(KeyMissing)
      else if after != s.mapping[before] then Failure(AssertionFailed)
      else Success((SequenceStack(s.oldStack[..|s.oldStack| - 1], s.newStack[..|s.newStack| - 1], s.mapping), (before, after)))
  }

  /** `bind`: record that `before` is copied into `after`, without opening anything. */
  function Bind(s: SequenceStack, before: SeqId, after: SeqId): SequenceStack {
    s.(mapping := s.mapping[before := after])
  }

  /** `resolve`: the new sequence an old one was copied into; the lookup is unwrapped. */
  function Resolve(s: SequenceStack, before: SeqId): Result<SeqId, Panic> {
    if before in s.mapping then Success(s.mapping[before]) else Failure(KeyMissing)
  }

  /** `last_new`: the innermost open new sequence, the one instructions are appended to. */
  function LastNew(s: SequenceStack): Result<SeqId, Panic> {
    if |s.newStack| == 0 then Failure(EmptyStack) else Success(s.newStack[|s.newStack| - 1])
  }

  /** A fresh stack has exactly the two bodies open: instructions go to the new body, the old
      body resolves to it, and closing it leaves nothing open. */
  lemma NewSequenceStackObserved(before: SeqId, after: SeqId)
    ensures LastNew(NewSequenceStack(before, after)) == Success(after)
    ensures Resolve(NewSequenceStack(before, after), before) == Success(after)
    ensures forall x | x != before :: Resolve(NewSequenceStack(before, after), x) == Failure(KeyMissing)
    ensures Pop(NewSequenceStack(before, after)) == Success((SequenceStack([], [], map[before := after]), (before, after)))
  {
  }

  /** Pushing and then popping returns the pushed pair and restores both stacks; only the
      mapping keeps the pair. While the pair is open, instructions go to the pushed new sequence. */
  lemma PushPop(s: SequenceStack, before: SeqId, after: SeqId)
    ensures LastNew(Push(s, before, after)) == Success(after)
    ensures Pop(Push(s, before, after)).Success?
    ensures Pop(Push(s, before, after)).value.1 == (before, after)
    ensures Pop(Push(s, before, after)).value.0 == Bind(s, before, after)
  {
    var p := Push(s, before, after);
    assert p.oldStack[..|p.oldStack| - 1] == s.oldStack;
    assert p.newStack[..|p.newStack| - 1] == s.newStack;
  }

  /** When `pop` succeeds, and which panic stops it otherwise. */
  lemma PopOutcome(s: SequenceStack)
    ensures Pop(s).Failure? && Pop(s).error == EmptyStack <==> |s.oldStack| == 0 || |s.newStack| == 0
    ensures Pop(s).Success?
            <==> |s.oldStack| > 0 && |s.newStack| > 0
                 && s.oldStack[|s.oldStack| - 1] in s.mapping
                 && s.mapping[s.oldStack[|s.oldStack| - 1]] == s.newStack[|s.newStack| - 1]
    ensures Pop(s).Success? ==> Pop(s).value.0.mapping == s.mapping
                                && Pop(s).value.0.oldStack + [Pop(s).value.1.0] == s.oldStack
                                && Pop(s).value.0.newStack + [Pop(s).value.1.1] == s.newStack
  {
  }

  /** `bind` leaves both stacks alone; afterwards `before` resolves to `after` and every other
      sequence resolves as it did. */
  lemma BindLaws(s: SequenceStack, before: SeqId, after: SeqId, other: SeqId)
    ensures Bind(s, before, after).oldStack == s.oldStack && Bind(s, before, after).newStack == s.newStack
    ensures LastNew(Bind(s, before, after)) == LastNew(s)
    ensures Resolve(Bind(s, before, after), before) == Success(after)
    ensures other != before ==> Resolve(Bind(s, before, after), other) == Resolve(s, other)
  {
  }

  // ---------------------------------------------------------------------------------------
  // Instructions

  /** The instructions that name no id at all; they are copied as they are. */
  datatype IdFreeOp =
    | Const(value: int) | Unop(unop: nat) | Binop(binop: nat) | TernOp(ternop: nat)
    | Select(selectTy: Option<ValType>) | Unreachable | Drop | Return
    | RefNull(refTy: ValType) | RefIsNull | AtomicFence
    | V128Bitselect | I8x16Swizzle | I8x16Shuffle(lanes: seq<nat>)

  /** The instructions that name one memory, with their immediates. */
  datatype MemoryOp =
    | MemorySize | MemoryGrow | MemoryFill
    | Load(loadArg: nat) | Store(storeArg: nat) | LoadSimd(simdArg: nat)
    | AtomicRmw(rmwArg: nat) | Cmpxchg(cmpxchgArg: nat) | AtomicNotify(notifyArg: nat) | AtomicWait(waitArg: nat)

  /** The instructions that name one table. */
  datatype TableOp = TableGet | TableSet | TableGrow | TableSize | TableFill

  /** The instructions of a body, ids abstracted to naturals. Every id is local to the module
      (for `Local*`, to the function) the instruction belongs to. */
  datatype Instr =
    | Block(blockSeq: SeqId) | Loop(loopSeq: SeqId) | IfElse(consequent: SeqId, alternative: SeqId)
    | Br(brTarget: SeqId) | BrIf(condLabel: SeqId) | BrTable(targets: seq<SeqId>, fallback: SeqId)
    | Call(callee: nat) | ReturnCall(tailCallee: nat) | RefFunc(referenced: nat)
    | CallIndirect(callTy: nat, callTable: nat) | ReturnCallIndirect(tailTy: nat, tailTable: nat)
    | LocalGet(getLocal: nat) | LocalSet(setLocal: nat) | LocalTee(teeLocal: nat)
    | GlobalGet(getGlobal: nat) | GlobalSet(setGlobal: nat)
    | MemoryAccess(memoryOp: MemoryOp, memory: nat)
    | MemoryInit(initMemory: nat, initData: nat) | DataDrop(dropped: nat) | MemoryCopy(srcMemory: nat, dstMemory: nat)
    | TableAccess(tableOp: TableOp, table: nat)
    | TableInit(initTable: nat, initElem: nat) | ElemDrop(droppedElem: nat) | TableCopy(srcTable: nat, dstTable: nat)
    | IdFree(op: IdFreeOp)

  /** The instructions that open new sequences (`@SCOPE_CHANGE` in the copier). */
  predicate Scoped(i: Instr) {
    i.Block? || i.Loop? || i.IfElse?
  }

  /** The old-to-new id maps of the module being copied, each keyed by the old id. `types` maps
      an old type id to the first type of the merged module with the same signature. */
  datatype IdMaps = IdMaps(
    funcs: map<nat, nat>, tables: map<nat, nat>, memories: map<nat, nat>, globals: map<nat, nat>,
    locals: map<nat, nat>, datas: map<nat, nat>, elements: map<nat, nat>, types: map<nat, nat>)

  /** A lookup of one of the maps, unwrapped. */
  function Lookup(m: map<nat, nat>, k: nat): (r: Result<nat, Panic>)
    ensures r.Success? <==> k in m
    ensures r.Success? ==> r.value == m[k]
    ensures r.Failure? ==> r.error == KeyMissing
  {
    if k in m then Success(m[k]) else Failure(KeyMissing)
  }

  /** Lookups of every key in turn; the first absent key panics. */
  function LookupAll(m: map<nat, nat>, ks: seq<nat>): (r: Result<seq<nat>, Panic>)
    ensures r.Success? <==> forall k | 0 <= k < |ks| :: ks[k] in m
    ensures r.Success? ==> |r.value| == |ks| && forall k | 0 <= k < |ks| :: r.value[k] == m[ks[k]]
    ensures r.Failure? ==> r.error == KeyMissing
  {
    if |ks| == 0 then Success([])
    else
      var first :- Lookup(m, ks[0]);
      var rest :- LookupAll(m, ks[1..]);
      Success([first] + rest)
  }

  /** `old_to_new` for types: the old signature is read from the old module's type arena, and
      `types.find(..).unwrap()` looks up the first type of the merged module with that signature. */
  function TypeMap(oldTypes: seq<ArenaType>, newTypes: seq<FuncType>): (r: map<nat, nat>)
    ensures forall t | t in r :: t < |oldTypes| && r[t] < |newTypes| && newTypes[r[t]] == FromTypes(t, oldTypes)
    ensures forall t | t in r :: forall k | 0 <= k < r[t] :: newTypes[k] != FromTypes(t, oldTypes)
    ensures forall t | 0 <= t < |oldTypes| && FromTypes(t, oldTypes) in newTypes :: t in r
  {
    map t | 0 <= t < |oldTypes| && FindFirst(newTypes, (ft: FuncType) => ft == FromTypes(t, oldTypes)).Some?
      :: FindFirst(newTypes, (ft: FuncType) => ft == FromTypes(t, oldTypes)).value
  }

  /** The instruction `push_instr` appends for `i`: every id looked up in its map (labels through
      the sequence stack's mapping), and a scoped instruction pointing at the fresh sequences
      `spare` (and `spare + 1` for the alternative of an if). */
  function RewriteInstr(i: Instr, maps: IdMaps, labels: map<SeqId, SeqId>, spare: SeqId): Result<Instr, Panic> {
    match i
    case Block(_) => Success(Block(spare))
    case Loop(_) => Success(Loop(spare))
    case IfElse(_, _) => Success(IfElse(spare, spare + 1))
    case Br(l) => var n :- Lookup(labels, l); Success(Br(n))
    case BrIf(l) => var n :- Lookup(labels, l); Success(BrIf(n))
    case BrTable(ls, d) =>
      var ns :- LookupAll(labels, ls);
      var nd :- Lookup(labels, d);
      Success(BrTable(ns, nd))
    case Call(f) => var n :- Lookup(maps.funcs, f); Success(Call(n))
    case ReturnCall(f) => var n :- Lookup(maps.funcs, f); Success(ReturnCall(n))
    case RefFunc(f) => var n :- Lookup(maps.funcs, f); Success(RefFunc(n))
    case CallIndirect(t, tb) =>
      var nt :- Lookup(maps.types, t);
      var ntb :- Lookup(maps.tables, tb);
      Success(CallIndirect(nt, ntb))
    case ReturnCallIndirect(t, tb) =>
      var ntb :- Lookup(maps.tables, tb);
      var nt :- Lookup(maps.types, t);
      Success(ReturnCallIndirect(nt, ntb))
    case LocalGet(x) => var n :- Lookup(maps.locals, x); Success(LocalGet(n))
    case LocalSet(x) => var n :- Lookup(maps.locals, x); Success(LocalSet(n))
    case LocalTee(x) => var n :- Lookup(maps.locals, x); Success(LocalTee(n))
    case GlobalGet(g) => var n :- Lookup(maps.globals, g); Success(GlobalGet(n))
    case GlobalSet(g) => var n :- Lookup(maps.globals, g); Success(GlobalSet(n))
    case MemoryAccess(op, m) => var n :- Lookup(maps.memories, m); Success(MemoryAccess(op, n))
    case MemoryInit(m, d) =>
      var nd :- Lookup(maps.datas, d);
      var nm :- Lookup(maps.memories, m);
      Success(MemoryInit(nm, nd))
    case DataDrop(d) => var n :- Lookup(maps.datas, d); Success(DataDrop(n))
    case MemoryCopy(src, dst) =>
      var ns :- Lookup(maps.memories, src);
      var nd :- Lookup(maps.memories, dst);
      Success(MemoryCopy(ns, nd))
    case TableAccess(op, t) => var n :- Lookup(maps.tables, t); Success(TableAccess(op, n))
    case TableInit(t, e) =>
      var nt :- Lookup(maps.tables, t);
      var ne :- Lookup(maps.elements, e);
      Success(TableInit(nt, ne))
    case ElemDrop(e) => var n :- Lookup(maps.elements, e); Success(ElemDrop(n))
    case TableCopy(src, dst) =>
      var ns :- Lookup(maps.tables, src);
      var nd :- Lookup(maps.tables, dst);
      Success(TableCopy(ns, nd))
    case IdFree(op) => Success(IdFree(op))
  }

  // ---------------------------------------------------------------------------------------
  // An independent description of what rewriting does: the ids an instruction names, each
  // with its index space, and the instruction with its ids erased.

  datatype Space = FuncSpace | TableSpace | MemorySpace | GlobalSpace | LocalSpace | DataSpace | ElemSpace | TypeSpace | LabelSpace

  /** The ids `i` names, in operand order, with the index space each lives in. The sequences
      a scoped instruction opens are not references: they are fresh in the copy. */
  function References(i: Instr): seq<(Space, nat)> {
    match i
    case Block(_) => []
    case Loop(_) => []
    case IfElse(_, _) => []
    case Br(l) => [(LabelSpace, l)]
    case BrIf(l) => [(LabelSpace, l)]
    case BrTable(ls, d) => Labels(ls) + [(LabelSpace, d)]
    case Call(f) => [(FuncSpace, f)]
    case ReturnCall(f) => [(FuncSpace, f)]
    case RefFunc(f) => [(FuncSpace, f)]
    case CallIndirect(t, tb) => [(TypeSpace, t), (TableSpace, tb)]
    case ReturnCallIndirect(t, tb) => [(TypeSpace, t), (TableSpace, tb)]
    case LocalGet(x) => [(LocalSpace, x)]
    case LocalSet(x) => [(LocalSpace, x)]
    case LocalTee(x) => [(LocalSpace, x)]
    case GlobalGet(g) => [(GlobalSpace, g)]
    case GlobalSet(g) => [(GlobalSpace, g)]
    case MemoryAccess(_, m) => [(MemorySpace, m)]
    case MemoryInit(m, d) => [(MemorySpace, m), (DataSpace, d)]
    case DataDrop(d) => [(DataSpace, d)]
    case MemoryCopy(src, dst) => [(MemorySpace, src), (MemorySpace, dst)]
    case TableAccess(_, t) => [(TableSpace, t)]
    case TableInit(t, e) => [(TableSpace, t), (ElemSpace, e)]
    case ElemDrop(e) => [(ElemSpace, e)]
    case TableCopy(src, dst) => [(TableSpace, src), (TableSpace, dst)]
    case IdFree(_) => []
  }

  function Labels(ls: seq<SeqId>): (r: seq<(Space, nat)>)
    ensures |r| == |ls| && forall k | 0 <= k < |ls| :: r[k] == (LabelSpace, ls[k])
  {
    if |ls| == 0 then [] else [(LabelSpace, ls[0])] + Labels(ls[1..])
  }

  /** `i` with every id and every opened sequence replaced by 0: what a copy must keep. */
  function Shape(i: Instr): Instr {
    match i
    case Block(_) => Block(0)
    case Loop(_) => Loop(0)
    case IfElse(_, _) => IfElse(0, 0)
    case Br(_) => Br(0)
    case BrIf(_) => BrIf(0)
    case BrTable(ls, _) => BrTable(seq(|ls|, _ => 0), 0)
    case Call(_) => Call(0)
    case ReturnCall(_) => ReturnCall(0)
    case RefFunc(_) => RefFunc(0)
    case CallIndirect(_, _) => CallIndirect(0, 0)
    case ReturnCallIndirect(_, _) => ReturnCallIndirect(0, 0)
    case LocalGet(_) => LocalGet(0)
    case LocalSet(_) => LocalSet(0)
    case LocalTee(_) => LocalTee(0)
    case GlobalGet(_) => GlobalGet(0)
    case GlobalSet(_) => GlobalSet(0)
    case MemoryAccess(op, _) => MemoryAccess(op, 0)
    case MemoryInit(_, _) => MemoryInit(0, 0)
    case DataDrop(_) => DataDrop(0)
    case MemoryCopy(_, _) => MemoryCopy(0, 0)
    case TableAccess(op, _) => TableAccess(op, 0)
    case TableInit(_, _) => TableInit(0, 0)
    case ElemDrop(_) => ElemDrop(0)
    case TableCopy(_, _) => TableCopy(0, 0)
    case IdFree(op) => IdFree(op)
  }

  /** The map an index space is rewritten through. */
  function SpaceMap(maps: IdMaps, labels: map<SeqId, SeqId>, sp: Space): map<nat, nat> {
    match sp
    case FuncSpace => maps.funcs
    case TableSpace => maps.tables
    case MemorySpace => maps.memories
    case GlobalSpace => maps.globals
    case LocalSpace => maps.locals
    case DataSpace => maps.datas
    case ElemSpace => maps.elements
    case TypeSpace => maps.types
    case LabelSpace => labels
  }

  /** Every reference of `refs` is present in the map of its space. */
  predicate AllMapped(refs: seq<(Space, nat)>, maps: IdMaps, labels: map<SeqId, SeqId>) {
    forall k | 0 <= k < |refs| :: refs[k].1 in SpaceMap(maps, labels, refs[k].0)
  }

  /** `after` names, position by position, the images of the ids `before` names. */
  predicate MappedFrom(after: seq<(Space, nat)>, before: seq<(Space, nat)>, maps: IdMaps, labels: map<SeqId, SeqId>)
    requires AllMapped(before, maps, labels)
  {
    |after| == |before|
    && forall k | 0 <= k < |before| ::
         after[k] == (before[k].0, SpaceMap(maps, labels, before[k].0)[before[k].1])
  }

  /** What rewriting an instruction that opens nothing must do: succeed exactly when every id it
      names is mapped (and otherwise panic on the missing key), keep the shape, and name the
      images of the same ids in the same order. */
  predicate Renames(i: Instr, maps: IdMaps, labels: map<SeqId, SeqId>, spare: SeqId) {
    var r := RewriteInstr(i, maps, labels, spare);
    && (r.Success? <==> AllMapped(References(i), maps, labels))
    && (r.Failure? ==> r.error == KeyMissing)
    && (r.Success? ==> Shape(r.value) == Shape(i) && MappedFrom(References(r.value), References(i), maps, labels))
  }

  /** Rewriting succeeds exactly when every id the instruction names is mapped; the copy then
      has the same shape and names the images of the same ids in the same order. */
  lemma RewriteRenames(i: Instr, maps: IdMaps, labels: map<SeqId, SeqId>, spare: SeqId)
    requires !Scoped(i)
    ensures RewriteInstr(i, maps, labels, spare).Success? <==> AllMapped(References(i), maps, labels)
    ensures RewriteInstr(i, maps, labels, spare).Failure? ==> RewriteInstr(i, maps, labels, spare).error == KeyMissing
    ensures RewriteInstr(i, maps, labels, spare).Success? ==>
              Shape(RewriteInstr(i, maps, labels, spare).value) == Shape(i)
              && MappedFrom(References(RewriteInstr(i, maps, labels, spare).value), References(i), maps, labels)
  {
    match i
    case BrTable(ls, d) => RenamesBrTable(ls, d, maps, labels, spare);
    case CallIndirect(t, tb) => RenamesCallIndirect(t, tb, maps, labels, spare);
    case ReturnCallIndirect(t, tb) => RenamesReturnCallIndirect(t, tb, maps, labels, spare);
    case MemoryInit(m, d) => RenamesMemoryInit(m, d, maps, labels, spare);
    case MemoryCopy(src, dst) => RenamesMemoryCopy(src, dst, maps, labels, spare);
    case TableInit(t, e) => RenamesTableInit(t, e, maps, labels, spare);
    case TableCopy(src, dst) => RenamesTableCopy(src, dst, maps, labels, spare);
    case Br(_) => RenamesControl(i, maps, labels, spare);
    case BrIf(_) => RenamesControl(i, maps, labels, spare);
    case Call(_) => RenamesControl(i, maps, labels, spare);
    case ReturnCall(_) => RenamesControl(i, maps, labels, spare);
    case RefFunc(_) => RenamesControl(i, maps, labels, spare);
    case LocalGet(_) => RenamesVariable(i, maps, labels, spare);
    case LocalSet(_) => RenamesVariable(i, maps, labels, spare);
    case LocalTee(_) => RenamesVariable(i, maps, labels, spare);
    case GlobalGet(_) => RenamesVariable(i, maps, labels, spare);
    case GlobalSet(_) => RenamesVariable(i, maps, labels, spare);
    case MemoryAccess(op, m) => RenamesMemoryAccess(op, m, maps, labels, spare);
    case DataDrop(d) => RenamesDataDrop(d, maps, labels, spare);
    case TableAccess(op, t) => RenamesTableAccess(op, t, maps, labels, spare);
    case ElemDrop(e) => RenamesElemDrop(e, maps, labels, spare);
    case IdFree(op) => RenamesIdFree(op, maps, labels, spare);
  }

  lemma RenamesBrTable(ls: seq<SeqId>, d: SeqId, maps: IdMaps, labels: map<SeqId, SeqId>, spare: SeqId)
    ensures Renames(BrTable(ls, d), maps, labels, spare)
  {
    var i := BrTable(ls, d);
    var r := RewriteInstr(i, maps, labels, spare);
    var refs := References(i);
    var found := LookupAll(labels, ls);
    if found.Success? && d in labels {
      var out := r.value;
      assert out == BrTable(found.value, labels[d]);
      assert Shape(out) == Shape(i);
      var outRefs := References(out);
      forall k | 0 <= k < |refs|
        ensures outRefs[k] == (refs[k].0, SpaceMap(maps, labels, refs[k].0)[refs[k].1])
      {
        if k < |ls| {
          assert refs[k] == (LabelSpace, ls[k]) && outRefs[k] == (LabelSpace, found.value[k]);
        }
      }
    } else if found.Success? {
      assert refs[|ls|] == (LabelSpace, d);
    } else {
      var k :| 0 <= k < |ls| && ls[k] !in labels;
      assert refs[k] == (LabelSpace, ls[k]);
    }
  }

  /** A reference list of two ids is mapped exactly when both ids are. */
  lemma PairMapped(refs: seq<(Space, nat)>, maps: IdMaps, labels: map<SeqId, SeqId>)
    requires |refs| == 2
    ensures AllMapped(refs, maps, labels)
            <==> refs[0].1 in SpaceMap(maps, labels, refs[0].0) && refs[1].1 in SpaceMap(maps, labels, refs[1].0)
  {
  }

  /** `call_indirect`: a type and a table. */
  lemma RenamesCallIndirect(t: nat, tb: nat, maps: IdMaps, labels: map<SeqId, SeqId>, spare: SeqId)
    ensures Renames(CallIndirect(t, tb), maps, labels, spare)
  {
    assert References(CallIndirect(t, tb)) == [(TypeSpace, t), (TableSpace, tb)];
    PairMapped(References(CallIndirect(t, tb)), maps, labels);
    if t in maps.types && tb in maps.tables {
      var out := CallIndirect(maps.types[t], maps.tables[tb]);
      assert RewriteInstr(CallIndirect(t, tb), maps, labels, spare) == Success(out);
      assert References(out) == [(TypeSpace, maps.types[t]), (TableSpace, maps.tables[tb])];
    }
  }

  /** `return_call_indirect`: a type and a table. */
  lemma RenamesReturnCallIndirect(t: nat, tb: nat, maps: IdMaps, labels: map<SeqId, SeqId>, spare: SeqId)
    ensures Renames(ReturnCallIndirect(t, tb), maps, labels, spare)
  {
    assert References(ReturnCallIndirect(t, tb)) == [(TypeSpace, t), (TableSpace, tb)];
    PairMapped(References(ReturnCallIndirect(t, tb)), maps, labels);
    if t in maps.types && tb in maps.tables {
      var out := ReturnCallIndirect(maps.types[t], maps.tables[tb]);
      assert RewriteInstr(ReturnCallIndirect(t, tb), maps, labels, spare) == Success(out);
      assert References(out) == [(TypeSpace, maps.types[t]), (TableSpace, maps.tables[tb])];
    }
  }

  /** `memory.init`: a memory and a data segment. */
  lemma RenamesMemoryInit(m: nat, d: nat, maps: IdMaps, labels: map<SeqId, SeqId>, spare: SeqId)
    ensures Renames(MemoryInit(m, d), maps, labels, spare)
  {
    assert References(MemoryInit(m, d)) == [(MemorySpace, m), (DataSpace, d)];
    PairMapped(References(MemoryInit(m, d)), maps, labels);
    if m in maps.memories && d in maps.datas {
      var out := MemoryInit(maps.memories[m], maps.datas[d]);
      assert RewriteInstr(MemoryInit(m, d), maps, labels, spare) == Success(out);
      assert References(out) == [(MemorySpace, maps.memories[m]), (DataSpace, maps.datas[d])];
    }
  }

  /** `memory.copy`: two memories. */
  lemma RenamesMemoryCopy(src: nat, dst: nat, maps: IdMaps, labels: map<SeqId, SeqId>, spare: SeqId)
    ensures Renames(MemoryCopy(src, dst), maps, labels, spare)
  {
    assert References(MemoryCopy(src, dst)) == [(MemorySpace, src), (MemorySpace, dst)];
    PairMapped(References(MemoryCopy(src, dst)), maps, labels);
    if src in maps.memories && dst in maps.memories {
      var out := MemoryCopy(maps.memories[src], maps.memories[dst]);
      assert RewriteInstr(MemoryCopy(src, dst), maps, labels, spare) == Success(out);
      assert References(out) == [(MemorySpace, maps.memories[src]), (MemorySpace, maps.memories[dst])];
    }
  }

  /** `table.init`: a table and an element segment. */
  lemma RenamesTableInit(t: nat, e: nat, maps: IdMaps, labels: map<SeqId, SeqId>, spare: SeqId)
    ensures Renames(TableInit(t, e), maps, labels, spare)
  {
    assert References(TableInit(t, e)) == [(TableSpace, t), (ElemSpace, e)];
    PairMapped(References(TableInit(t, e)), maps, labels);
    if t in maps.tables && e in maps.elements {
      var out := TableInit(maps.tables[t], maps.elements[e]);
      assert RewriteInstr(TableInit(t, e), maps, labels, spare) == Success(out);
      assert References(out) == [(TableSpace, maps.tables[t]), (ElemSpace, maps.elements[e])];
    }
  }

  /** `table.copy`: two tables. */
  lemma RenamesTableCopy(src: nat, dst: nat, maps: IdMaps, labels: map<SeqId, SeqId>, spare: SeqId)
    ensures Renames(TableCopy(src, dst), maps, labels, spare)
  {
    assert References(TableCopy(src, dst)) == [(TableSpace, src), (TableSpace, dst)];
    PairMapped(References(TableCopy(src, dst)), maps, labels);
    if src in maps.tables && dst in maps.tables {
      var out := TableCopy(maps.tables[src], maps.tables[dst]);
      assert RewriteInstr(TableCopy(src, dst), maps, labels, spare) == Success(out);
      assert References(out) == [(TableSpace, maps.tables[src]), (TableSpace, maps.tables[dst])];
    }
  }

  /** Branches, calls and function references: one label or function id. */
  lemma RenamesControl(i: Instr, maps: IdMaps, labels: map<SeqId, SeqId>, spare: SeqId)
    requires i.Br? || i.BrIf? || i.Call? || i.ReturnCall? || i.RefFunc?
    ensures Renames(i, maps, labels, spare)
  {
    var refs := References(i);
    if |refs| == 1 {
      assert AllMapped(refs, maps, labels) <==> refs[0].1 in SpaceMap(maps, labels, refs[0].0);
    }
  }

  /** Local and global accesses: one local or global id. */
  lemma RenamesVariable(i: Instr, maps: IdMaps, labels: map<SeqId, SeqId>, spare: SeqId)
    requires i.LocalGet? || i.LocalSet? || i.LocalTee? || i.GlobalGet? || i.GlobalSet?
    ensures Renames(i, maps, labels, spare)
  {
    var refs := References(i);
    if |refs| == 1 {
      assert AllMapped(refs, maps, labels) <==> refs[0].1 in SpaceMap(maps, labels, refs[0].0);
    }
  }

  /** A reference list of one id is mapped exactly when that id is. */
  lemma SingleMapped(refs: seq<(Space, nat)>, maps: IdMaps, labels: map<SeqId, SeqId>)
    requires |refs| == 1
    ensures AllMapped(refs, maps, labels) <==> refs[0].1 in SpaceMap(maps, labels, refs[0].0)
  {
  }

  /** Loads, stores and the other single-memory instructions. */
  lemma RenamesMemoryAccess(op: MemoryOp, m: nat, maps: IdMaps, labels: map<SeqId, SeqId>, spare: SeqId)
    ensures Renames(MemoryAccess(op, m), maps, labels, spare)
  {
    assert References(MemoryAccess(op, m)) == [(MemorySpace, m)];
    SingleMapped(References(MemoryAccess(op, m)), maps, labels);
    if m in maps.memories {
      assert RewriteInstr(MemoryAccess(op, m), maps, labels, spare) == Success(MemoryAccess(op, maps.memories[m]));
      assert References(MemoryAccess(op, maps.memories[m])) == [(MemorySpace, maps.memories[m])];
    }
  }

  /** The single-table instructions. */
  lemma RenamesTableAccess(op: TableOp, t: nat, maps: IdMaps, labels: map<SeqId, SeqId>, spare: SeqId)
    ensures Renames(TableAccess(op, t), maps, labels, spare)
  {
    assert References(TableAccess(op, t)) == [(TableSpace, t)];
    SingleMapped(References(TableAccess(op, t)), maps, labels);
    if t in maps.tables {
      assert RewriteInstr(TableAccess(op, t), maps, labels, spare) == Success(TableAccess(op, maps.tables[t]));
      assert References(TableAccess(op, maps.tables[t])) == [(TableSpace, maps.tables[t])];
    }
  }

  /** `data.drop`: one data segment. */
  lemma RenamesDataDrop(d: nat, maps: IdMaps, labels: map<SeqId, SeqId>, spare: SeqId)
    ensures Renames(DataDrop(d), maps, labels, spare)
  {
    assert References(DataDrop(d)) == [(DataSpace, d)];
    SingleMapped(References(DataDrop(d)), maps, labels);
    if d in maps.datas {
      assert RewriteInstr(DataDrop(d), maps, labels, spare) == Success(DataDrop(maps.datas[d]));
      assert References(DataDrop(maps.datas[d])) == [(DataSpace, maps.datas[d])];
    }
  }

  /** `elem.drop`: one element segment. */
  lemma RenamesElemDrop(e: nat, maps: IdMaps, labels: map<SeqId, SeqId>, spare: SeqId)
    ensures Renames(ElemDrop(e), maps, labels, spare)
  {
    assert References(ElemDrop(e)) == [(ElemSpace, e)];
    SingleMapped(References(ElemDrop(e)), maps, labels);
    if e in maps.elements {
      assert RewriteInstr(ElemDrop(e), maps, labels, spare) == Success(ElemDrop(maps.elements[e]));
      assert References(ElemDrop(maps.elements[e])) == [(ElemSpace, maps.elements[e])];
    }
  }

  /** The id-free instructions name nothing and are kept as they are. */
  lemma RenamesIdFree(op: IdFreeOp, maps: IdMaps, labels: map<SeqId, SeqId>, spare: SeqId)
    ensures Renames(IdFree(op), maps, labels, spare)
  {
    IdFreeUnchanged(op, maps, labels, spare);
  }

  /** Id-free instructions are copied unchanged, whatever the maps. */
  lemma IdFreeUnchanged(op: IdFreeOp, maps: IdMaps, labels: map<SeqId, SeqId>, spare: SeqId)
    ensures RewriteInstr(IdFree(op), maps, labels, spare) == Success(IdFree(op))
  {
  }

  /** A `global.get` is renamed through the global map, and panics when its global is unmapped. */
  lemma RewriteGlobalGet(g: nat, maps: IdMaps, labels: map<SeqId, SeqId>, spare: SeqId)
    ensures RewriteInstr(GlobalGet(g), maps, labels, spare)
            == if g in maps.globals then Success(GlobalGet(maps.globals[g])) else Failure(KeyMissing)
  {
  }

  /** A `ref.func` is renamed through the function map, and panics when its function is unmapped. */
  lemma RewriteRefFunc(f: nat, maps: IdMaps, labels: map<SeqId, SeqId>, spare: SeqId)
    ensures RewriteInstr(RefFunc(f), maps, labels, spare)
            == if f in maps.funcs then Success(RefFunc(maps.funcs[f])) else Failure(KeyMissing)
  {
  }

  /** Every branch target of a `br_table`, the default included, is resolved through the
      sequence stack, in place. */
  lemma BrTableResolved(ls: seq<SeqId>, d: SeqId, maps: IdMaps, s: SequenceStack, spare: SeqId)
    requires forall k | 0 <= k < |ls| :: Resolve(s, ls[k]).Success?
    requires Resolve(s, d).Success?
    ensures RewriteInstr(BrTable(ls, d), maps, s.mapping, spare).Success?
    ensures RewriteInstr(BrTable(ls, d), maps, s.mapping, spare).value.fallback == Resolve(s, d).value
    ensures |RewriteInstr(BrTable(ls, d), maps, s.mapping, spare).value.targets| == |ls|
    ensures forall k | 0 <= k < |ls| ::
              RewriteInstr(BrTable(ls, d), maps, s.mapping, spare).value.targets[k] == Resolve(s, ls[k]).value
  {
    assert forall k | 0 <= k < |ls| :: ls[k] in s.mapping;
  }

  // ---------------------------------------------------------------------------------------
  // The copier's state and its visitor callbacks

  /** The copier's state: the sequence stack, the instruction sequences of the new function
      built so far, and the next fresh sequence id of the merged module. */
  datatype Copy = Copy(stack: SequenceStack, body: map<SeqId, seq<Instr>>, nextSeq: SeqId)

  /** Every sequence built so far has an id below the next fresh one. */
  predicate FreshAbove(c: Copy) {
    forall id | id in c.body :: id < c.nextSeq
  }

  /** `push_instr` (`visit_instr`): append the rewritten instruction to the innermost open new
      sequence; a scoped instruction first creates its fresh empty sequences and binds the old
      sequences it opens to them. */
  function PushInstr(c: Copy, maps: IdMaps, i: Instr): Result<Copy, Panic> {
    var rewritten :- RewriteInstr(i, maps, c.stack.mapping, c.nextSeq);
    var current :- LastNew(c.stack);
    if current !in c.body then Failure(KeyMissing)
    else
      var body := c.body[current := c.body[current] + [rewritten]];
      match i
      case Block(s) => Success(Copy(Bind(c.stack, s, c.nextSeq), body[c.nextSeq := []], c.nextSeq + 1))
      case Loop(s) => Success(Copy(Bind(c.stack, s, c.nextSeq), body[c.nextSeq := []], c.nextSeq + 1))
      case IfElse(a, b) =>
        Success(Copy(Bind(Bind(c.stack, a, c.nextSeq), b, c.nextSeq + 1),
                     body[c.nextSeq := []][c.nextSeq + 1 := []], c.nextSeq + 2))
      case _ => Success(c.(body := body))
  }

  /** `push_instr` never touches the stacks; a scoped instruction's old sequences now resolve
      to the fresh ones it points at, and any other instruction leaves the stack as it was. */
  lemma PushInstrStack(c: Copy, maps: IdMaps, i: Instr)
    requires PushInstr(c, maps, i).Success?
    ensures PushInstr(c, maps, i).value.stack.oldStack == c.stack.oldStack
    ensures PushInstr(c, maps, i).value.stack.newStack == c.stack.newStack
    ensures i.Block? ==> Resolve(PushInstr(c, maps, i).value.stack, i.blockSeq) == Success(c.nextSeq)
    ensures i.Loop? ==> Resolve(PushInstr(c, maps, i).value.stack, i.loopSeq) == Success(c.nextSeq)
    ensures i.IfElse? ==> Resolve(PushInstr(c, maps, i).value.stack, i.alternative) == Success(c.nextSeq + 1)
    ensures i.IfElse? && i.consequent != i.alternative ==>
              Resolve(PushInstr(c, maps, i).value.stack, i.consequent) == Success(c.nextSeq)
    ensures !Scoped(i) ==> PushInstr(c, maps, i).value.stack == c.stack
  {
  }

  /** `push_instr` appends exactly the rewritten instruction to the innermost open new sequence,
      and the sequences a scoped instruction opens start out empty under fresh ids. */
  lemma PushInstrAppends(c: Copy, maps: IdMaps, i: Instr)
    requires PushInstr(c, maps, i).Success?
    requires FreshAbove(c)
    ensures LastNew(c.stack).Success? && LastNew(c.stack).value in c.body
    ensures RewriteInstr(i, maps, c.stack.mapping, c.nextSeq).Success?
    ensures PushInstr(c, maps, i).value.body[LastNew(c.stack).value]
            == c.body[LastNew(c.stack).value] + [RewriteInstr(i, maps, c.stack.mapping, c.nextSeq).value]
    ensures (i.Block? || i.Loop?) ==> PushInstr(c, maps, i).value.body[c.nextSeq] == []
    ensures i.IfElse? ==> PushInstr(c, maps, i).value.body[c.nextSeq] == []
                          && PushInstr(c, maps, i).value.body[c.nextSeq + 1] == []
    ensures FreshAbove(PushInstr(c, maps, i).value)
  {
  }

  /** `start_instr_seq`: open the old sequence together with the new sequence it resolves to. */
  function StartInstrSeq(c: Copy, id: SeqId): Result<Copy, Panic> {
    var after :- Resolve(c.stack, id);
    Success(c.(stack := Push(c.stack, id, after)))
  }

  /** `end_instr_seq`: close the innermost pair and check it was this sequence. */
  function EndInstrSeq(c: Copy, id: SeqId): Result<Copy, Panic> {
    var (stack, (before, _)) :- Pop(c.stack);
    if before != id then Failure(AssertionFailed) else Success(c.(stack := stack))
  }

  /** A `start_instr_seq` / `end_instr_seq` pair on a sequence that resolves leaves the whole
      state as it was: the push rebinds the sequence to the value it already had. */
  lemma StartEndBalanced(c: Copy, id: SeqId)
    requires Resolve(c.stack, id).Success?
    ensures StartInstrSeq(c, id).Success?
    ensures EndInstrSeq(StartInstrSeq(c, id).value, id) == Success(c)
  {
    PushPop(c.stack, id, c.stack.mapping[id]);
    assert Bind(c.stack, id, c.stack.mapping[id]) == c.stack;
  }

  // ---------------------------------------------------------------------------------------
  // The depth-first walk (`dfs_in_order`)

  /** An instruction together with the old sequences it opens, in the order they are visited
      (a block's or loop's body; an if's consequent, then its alternative). */
  datatype Item = Item(instr: Instr, nested: seq<Sequence>)

  /** An old instruction sequence and its instructions. */
  datatype Sequence = Sequence(id: SeqId, items: seq<Item>)

  /** Copy one sequence: open it, visit its instructions in order, each followed by the
      sequences it opens, then close it. */
  function CopySequence(c: Copy, maps: IdMaps, s: Sequence): Result<Copy, Panic>
    decreases s, 2
  {
    var started :- StartInstrSeq(c, s.id);
    var copied :- CopyItems(started, maps, s.items);
    EndInstrSeq(copied, s.id)
  }

  function CopyItems(c: Copy, maps: IdMaps, items: seq<Item>): Result<Copy, Panic>
    decreases items, 1
  {
    if |items| == 0 then Success(c)
    else
      var pushed :- PushInstr(c, maps, items[0].instr);
      var nested :- CopySequences(pushed, maps, items[0].nested);
      CopyItems(nested, maps, items[1..])
  }

  function CopySequences(c: Copy, maps: IdMaps, ss: seq<Sequence>): Result<Copy, Panic>
    decreases ss, 0
  {
    if |ss| == 0 then Success(c)
    else
      var first :- CopySequence(c, maps, ss[0]);
      CopySequences(first, maps, ss[1..])
  }

  /** A successful copy of a sequence, of instructions, or of nested sequences leaves both
      stacks exactly as it found them: every open is matched by its close. */
  lemma {:induction false} CopySequenceBalanced(c: Copy, maps: IdMaps, s: Sequence)
    requires CopySequence(c, maps, s).Success?
    ensures CopySequence(c, maps, s).value.stack.oldStack == c.stack.oldStack
    ensures CopySequence(c, maps, s).value.stack.newStack == c.stack.newStack
    decreases s, 2
  {
    var started := StartInstrSeq(c, s.id).value;
    CopyItemsBalanced(started, maps, s.items);
    var copied := CopyItems(started, maps, s.items).value;
    PopOutcome(copied.stack);
  }

  lemma {:induction false} CopyItemsBalanced(c: Copy, maps: IdMaps, items: seq<Item>)
    requires CopyItems(c, maps, items).Success?
    ensures CopyItems(c, maps, items).value.stack.oldStack == c.stack.oldStack
    ensures CopyItems(c, maps, items).value.stack.newStack == c.stack.newStack
    decreases items, 1
  {
    if |items| > 0 {
      PushInstrStack(c, maps, items[0].instr);
      var pushed := PushInstr(c, maps, items[0].instr).value;
      CopySequencesBalanced(pushed, maps, items[0].nested);
      var nested := CopySequences(pushed, maps, items[0].nested).value;
      CopyItemsBalanced(nested, maps, items[1..]);
    }
  }

  lemma {:induction false} CopySequencesBalanced(c: Copy, maps: IdMaps, ss: seq<Sequence>)
    requires CopySequences(c, maps, ss).Success?
    ensures CopySequences(c, maps, ss).value.stack.oldStack == c.stack.oldStack
    ensures CopySequences(c, maps, ss).value.stack.newStack == c.stack.newStack
    decreases ss, 0
  {
    if |ss| > 0 {
      CopySequenceBalanced(c, maps, ss[0]);
      var first := CopySequence(c, maps, ss[0]).value;
      CopySequencesBalanced(first, maps, ss[1..]);
    }
  }

  /** `WasmFunctionCopy::new` followed by the walk from the old body: the stack starts with the
      two bodies corresponding, and the new body starts empty. */
  function CopyFunction(body: Sequence, newBody: SeqId, nextSeq: SeqId, maps: IdMaps): Result<Copy, Panic> {
    CopySequence(Copy(NewSequenceStack(body.id, newBody), map[newBody := []], nextSeq), maps, body)
  }

  /** After copying a whole function, exactly the two bodies are open again. */
  lemma CopyFunctionBalanced(body: Sequence, newBody: SeqId, nextSeq: SeqId, maps: IdMaps)
    requires CopyFunction(body, newBody, nextSeq, maps).Success?
    ensures CopyFunction(body, newBody, nextSeq, maps).value.stack.oldStack == [body.id]
    ensures CopyFunction(body, newBody, nextSeq, maps).value.stack.newStack == [newBody]
  {
    CopySequenceBalanced(Copy(NewSequenceStack(body.id, newBody), map[newBody := []], nextSeq), maps, body);
  }

  // ---------------------------------------------------------------------------------------
  // A body without nested sequences

  /** An item that opens nothing. */
  predicate Flat(items: seq<Item>) {
    forall k | 0 <= k < |items| :: !Scoped(items[k].instr) && items[k].nested == []
  }

  /** Every instruction of `items` rewritten in order; the first that fails stops the rest. */
  function RewriteAll(items: seq<Item>, maps: IdMaps, labels: map<SeqId, SeqId>, spare: SeqId): (r: Result<seq<Instr>, Panic>)
    ensures r.Success? <==> forall k | 0 <= k < |items| :: RewriteInstr(items[k].instr, maps, labels, spare).Success?
    ensures r.Success? ==> |r.value| == |items|
                           && forall k | 0 <= k < |items| :: r.value[k] == RewriteInstr(items[k].instr, maps, labels, spare).value
  {
    if |items| == 0 then Success([])
    else
      var first :- RewriteInstr(items[0].instr, maps, labels, spare);
      var rest :- RewriteAll(items[1..], maps, labels, spare);
      assert forall k | 1 <= k < |items| :: items[k] == items[1..][k - 1];
      Success([first] + rest)
  }

  /** Appending `extra` to the innermost open new sequence, when there is one. */
  function AppendCurrent(c: Copy, extra: seq<Instr>): Copy
    requires LastNew(c.stack).Success? && LastNew(c.stack).value in c.body
  {
    var current := LastNew(c.stack).value;
    c.(body := c.body[current := c.body[current] + extra])
  }

  /** One instruction that opens nothing: `push_instr` appends its rewrite or fails with it. */
  lemma PushFlat(c: Copy, maps: IdMaps, i: Instr)
    requires !Scoped(i)
    requires LastNew(c.stack).Success? && LastNew(c.stack).value in c.body
    ensures RewriteInstr(i, maps, c.stack.mapping, c.nextSeq).Success? ==>
              PushInstr(c, maps, i) == Success(AppendCurrent(c, [RewriteInstr(i, maps, c.stack.mapping, c.nextSeq).value]))
    ensures RewriteInstr(i, maps, c.stack.mapping, c.nextSeq).Failure? ==>
              PushInstr(c, maps, i) == Failure(RewriteInstr(i, maps, c.stack.mapping, c.nextSeq).error)
  {
  }

  /** Past an instruction that opens nothing, copying goes on with the rest. */
  lemma CopyItemsStep(c: Copy, maps: IdMaps, items: seq<Item>)
    requires |items| > 0 && items[0].nested == []
    ensures PushInstr(c, maps, items[0].instr).Success? ==>
              CopyItems(c, maps, items) == CopyItems(PushInstr(c, maps, items[0].instr).value, maps, items[1..])
    ensures PushInstr(c, maps, items[0].instr).Failure? ==> CopyItems(c, maps, items) == Failure(PushInstr(c, maps, items[0].instr).error)
  {
    if PushInstr(c, maps, items[0].instr).Success? {
      var pushed := PushInstr(c, maps, items[0].instr).value;
      assert CopySequences(pushed, maps, items[0].nested) == Success(pushed);
    }
  }

  /** Rewriting a non-empty list is rewriting its head, then its tail. */
  lemma RewriteAllCons(items: seq<Item>, maps: IdMaps, labels: map<SeqId, SeqId>, spare: SeqId)
    requires |items| > 0
    ensures RewriteAll(items, maps, labels, spare).Success?
            <==> RewriteInstr(items[0].instr, maps, labels, spare).Success? && RewriteAll(items[1..], maps, labels, spare).Success?
    ensures RewriteAll(items, maps, labels, spare).Success? ==>
              RewriteAll(items, maps, labels, spare).value
              == [RewriteInstr(items[0].instr, maps, labels, spare).value] + RewriteAll(items[1..], maps, labels, spare).value
    ensures RewriteInstr(items[0].instr, maps, labels, spare).Failure? ==>
              RewriteAll(items, maps, labels, spare) == Failure(RewriteInstr(items[0].instr, maps, labels, spare).error)
    ensures RewriteInstr(items[0].instr, maps, labels, spare).Success? && RewriteAll(items[1..], maps, labels, spare).Failure? ==>
              RewriteAll(items, maps, labels, spare) == Failure(RewriteAll(items[1..], maps, labels, spare).error)
  {
  }

  /** Two appends to the innermost open sequence are one append of both. */
  lemma AppendCurrentTwice(c: Copy, a: seq<Instr>, b: seq<Instr>)
    requires LastNew(c.stack).Success? && LastNew(c.stack).value in c.body
    ensures AppendCurrent(AppendCurrent(c, a), b) == AppendCurrent(c, a + b)
  {
    var current := LastNew(c.stack).value;
    assert c.body[current] + a + b == c.body[current] + (a + b);
  }

  /** Copying a body without nested blocks is rewriting its instructions one by one: it succeeds
      exactly when every instruction rewrites, and then appends the rewrites, in order, to the
      innermost open new sequence and changes nothing else. */
  lemma {:induction false} CopyFlatItems(c: Copy, maps: IdMaps, items: seq<Item>)
    requires Flat(items)
    requires LastNew(c.stack).Success? && LastNew(c.stack).value in c.body
    ensures RewriteAll(items, maps, c.stack.mapping, c.nextSeq).Success? ==>
              CopyItems(c, maps, items) == Success(AppendCurrent(c, RewriteAll(items, maps, c.stack.mapping, c.nextSeq).value))
    ensures RewriteAll(items, maps, c.stack.mapping, c.nextSeq).Failure? ==>
              CopyItems(c, maps, items) == Failure(RewriteAll(items, maps, c.stack.mapping, c.nextSeq).error)
    decreases |items|
  {
    if |items| == 0 {
      var current := LastNew(c.stack).value;
      assert c.body[current] + [] == c.body[current];
      assert c.body[current := c.body[current]] == c.body;
    } else {
      PushFlat(c, maps, items[0].instr);
      RewriteAllCons(items, maps, c.stack.mapping, c.nextSeq);
      var first := RewriteInstr(items[0].instr, maps, c.stack.mapping, c.nextSeq);
      if first.Success? {
        var pushed := AppendCurrent(c, [first.value]);
        CopyItemsStep(c, maps, items);
        assert Flat(items[1..]) by {
          assert forall k | 0 <= k < |items[1..]| :: items[1..][k] == items[k + 1];
        }
        CopyFlatItems(pushed, maps, items[1..]);
        var rest := RewriteAll(items[1..], maps, c.stack.mapping, c.nextSeq);
        if rest.Success? {
          AppendCurrentTwice(c, [first.value], rest.value);
        }
      } else {
        CopyItemsStep(c, maps, items);
      }
    }
  }

  /** Copying a whole function whose body opens no block: it succeeds exactly when every
      instruction rewrites, with the body's own sequence resolving to the new body, and the new
      body then holds the rewrites in order. */
  lemma CopyFlatFunction(body: Sequence, newBody: SeqId, nextSeq: SeqId, maps: IdMaps)
    requires Flat(body.items)
    ensures CopyFunction(body, newBody, nextSeq, maps).Success?
            <==> RewriteAll(body.items, maps, map[body.id := newBody], nextSeq).Success?
    ensures CopyFunction(body, newBody, nextSeq, maps).Success? ==>
              && newBody in CopyFunction(body, newBody, nextSeq, maps).value.body
              && CopyFunction(body, newBody, nextSeq, maps).value.body[newBody]
                 == RewriteAll(body.items, maps, map[body.id := newBody], nextSeq).value
    ensures CopyFunction(body, newBody, nextSeq, maps).Failure? ==>
              CopyFunction(body, newBody, nextSeq, maps).error == RewriteAll(body.items, maps, map[body.id := newBody], nextSeq).error
  {
    var c := Copy(NewSequenceStack(body.id, newBody), map[newBody := []], nextSeq);
    var started := c.(stack := Push(c.stack, body.id, newBody));
    assert StartInstrSeq(c, body.id) == Success(started);
    assert started.stack.mapping == map[body.id := newBody];
    assert LastNew(started.stack) == Success(newBody);
    CopyFlatItems(started, maps, body.items);
    var rewrites := RewriteAll(body.items, maps, started.stack.mapping, nextSeq);
    if rewrites.Success? {
      var copied := AppendCurrent(started, rewrites.value);
      assert copied.stack == started.stack;
      assert EndInstrSeq(copied, body.id) == Success(copied.(stack := c.stack));
      assert [] + rewrites.value == rewrites.value;
    }
  }

  /** The same copy, stated through the ids the instructions name: it succeeds exactly when
      every id of every instruction is mapped. */
  lemma CopyFlatFunctionMapped(body: Sequence, newBody: SeqId, nextSeq: SeqId, maps: IdMaps)
    requires Flat(body.items)
    ensures CopyFunction(body, newBody, nextSeq, maps).Success?
            <==> forall k | 0 <= k < |body.items| ::
                   AllMapped(References(body.items[k].instr), maps, map[body.id := newBody])
  {
    var labels := map[body.id := newBody];
    CopyFlatFunction(body, newBody, nextSeq, maps);
    forall k | 0 <= k < |body.items|
      ensures RewriteInstr(body.items[k].instr, maps, labels, nextSeq).Success?
              <==> AllMapped(References(body.items[k].instr), maps, labels)
    {
      RewriteRenames(body.items[k].instr, maps, labels, nextSeq);
    }
  }
}
