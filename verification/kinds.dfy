/** The item kinds and identifiers shared by the resolver and the merger: owned function
    signatures, export names tagged with their item kind, and module names. */
module Kinds {

  /** The WebAssembly value types (section 2.3.4 of the WebAssembly Core Specification 2.0). */
  datatype ValType = I32 | I64 | F32 | F64 | V128 | FuncRef | ExternRef

  /** A function signature as a parsed module's type arena stores it. */
  datatype ArenaType = ArenaType(arenaParams: seq<ValType>, arenaResults: seq<ValType>)

  /** An owned copy of a function signature, detached from the arena it came from.
      Its equality is structural, which is what import/export type matching relies on. */
  datatype FuncType = FuncType(params: seq<ValType>, results: seq<ValType>) {

    function Params(): (r: seq<ValType>)
      ensures this == FuncType(r, Results())
    {
      params
    }

    function Results(): (r: seq<ValType>)
      ensures this == FuncType(params, r)
    {
      results
    }
  }

  /** Copies the signature stored under `id` in the arena `types`, parameters and results in order. */
  function FromTypes(id: nat, types: seq<ArenaType>): (r: FuncType)
    requires id < |types|
    ensures |r.Params()| == |types[id].arenaParams|
    ensures forall k :: 0 <= k < |r.Params()| ==> r.Params()[k] == types[id].arenaParams[k]
    ensures |r.Results()| == |types[id].arenaResults|
    ensures forall k :: 0 <= k < |r.Results()| ==> r.Results()[k] == types[id].arenaResults[k]
  {
    FuncType(types[id].arenaParams, types[id].arenaResults)
  }

  /** Two owned signatures taken from possibly different arenas are equal exactly when the
      stored parameter and result lists are equal: the arena identity plays no part. */
  lemma FromTypesEqualIffSameShape(id1: nat, types1: seq<ArenaType>, id2: nat, types2: seq<ArenaType>)
    requires id1 < |types1| && id2 < |types2|
    ensures FromTypes(id1, types1) == FromTypes(id2, types2)
        <==> (types1[id1].arenaParams == types2[id2].arenaParams
              && types1[id1].arenaResults == types2[id2].arenaResults)
  {
    var a, b := FromTypes(id1, types1), FromTypes(id2, types2);
    if a == b {
      assert a.Params() == b.Params() && a.Results() == b.Results();
    }
  }

  // The four supported item kinds, used only as type-level markers.
  datatype Function = Function
  datatype Table = Table
  datatype Memory = Memory
  datatype Global = Global

  /** An export or import name, tagged (at the type level only) with the item kind it names. */
  datatype IdentifierItem<Kind> = IdentifierItem(identifier: string) {

    /** The wrapped name. */
    function Identifier(): (r: string)
      ensures FromString<Kind>(r) == this
    {
      identifier
    }
  }

  /** `impl From<String> for IdentifierItem<Kind>`. */
  function FromString<Kind>(s: string): (r: IdentifierItem<Kind>)
    ensures r.identifier == s
  {
    IdentifierItem(s)
  }

  /** `impl From<IdentifierItem<Kind>> for String`. */
  function IntoString<Kind>(item: IdentifierItem<Kind>): (r: string)
    ensures FromString<Kind>(r) == item
  {
    item.identifier
  }

  /** Converting a name into an identifier and back yields the original name,
      and converting an identifier to a name and back yields the original identifier. */
  lemma IdentifierItemRoundTrip<Kind>(s: string, item: IdentifierItem<Kind>)
    ensures IntoString(FromString<Kind>(s)) == s
    ensures FromString<Kind>(IntoString(item)) == item
    ensures FromString<Kind>(s) == item <==> IntoString(item) == s
  {
  }

  /** The name under which a module takes part in a merge. */
  datatype IdentifierModule = IdentifierModule(name: string) {

    function Identifier(): (r: string)
      ensures IdentifierModule(r) == this
    {
      name
    }
  }
}
