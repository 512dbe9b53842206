/** Identifiers that carry, at the type level only, whether they index into an input module
    (`Old`) or into the merged module (`New`). Because `Old` and `New` are distinct types,
    `Identifier<Old, Id>` and `Identifier<New, Id>` are distinct types too, so an old id
    cannot be passed where a new one is expected. */
module ProvenanceIdentifier {

  /** Marker for identifiers of an input module. */
  datatype Old = Old

  /** Marker for identifiers of the merged module. */
  datatype New = New

  /** An id together with a phantom origin; the origin holds no data. */
  datatype Identifier<Origin, Id> = Identifier(id: Id)

  /** `impl From<Id> for Identifier<Origin, Id>`. */
  function From<Origin, Id>(id: Id): (r: Identifier<Origin, Id>)
    ensures Deref(r) == id
  {
    Identifier(id)
  }

  /** `impl Deref`: read the wrapped id. */
  function Deref<Origin, Id>(x: Identifier<Origin, Id>): (r: Id)
    ensures Identifier(r) == x
  {
    x.id
  }

  /** `impl DerefMut`, as a value: the identifier after writing `v` through the mutable reference. */
  function DerefMut<Origin, Id>(x: Identifier<Origin, Id>, v: Id): (r: Identifier<Origin, Id>)
    ensures Deref(r) == v
  {
    Identifier(v)
  }

  /** Writing through `deref_mut` and reading back yields the written value, and
      wrapping then unwrapping is the identity. */
  lemma DerefLaws<Origin, Id>(id: Id, x: Identifier<Origin, Id>, v: Id)
    ensures Deref(From<Origin, Id>(id)) == id
    ensures Deref(DerefMut(x, v)) == v
    ensures DerefMut(x, Deref(x)) == x
  {
  }

  /** With the origin fixed, two identifiers are equal exactly when their ids are equal:
      the origin is phantom and cannot distinguish them. */
  lemma EqualIffIdsEqual<Origin, Id>(a: Identifier<Origin, Id>, b: Identifier<Origin, Id>)
    ensures a == b <==> Deref(a) == Deref(b)
  {
  }
}
