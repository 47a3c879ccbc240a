/** The entries of the binding table `_mappings`. */
module Bindings {
  import opened Wrappers
  import opened TypeModel
  import opened Accessor

  /**
   * One (key, value) pair of `_mappings`: the source Member and the
   * destination Member, which is null (None) when the destination accessor
   * did not resolve. A null key is never stored, since Dictionary.Add refuses it.
   */
  type Binding = (Member, Option<Member>)

  /** Every destination side is non-null. */
  predicate AllResolved(bindings: seq<Binding>) {
    forall k | 0 <= k < |bindings| :: bindings[k].1.Some?
  }

  /** Every root type the table mentions is a type the process knows. */
  ghost predicate RootsKnown(types: TypeTable, bindings: seq<Binding>) {
    forall k | 0 <= k < |bindings| ::
      && bindings[k].0.rootType in types
      && (bindings[k].1.Some? ==> bindings[k].1.value.rootType in types)
  }
}
