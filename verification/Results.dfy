/** Outcomes shared by all modules: a throw of the source becomes an `Err` that says which throw it was. */
module Results {

  datatype Option<+T> = None | Some(value: T)

  datatype Error =
    | UnknownAnyTypeCode    // no PVXS code for this AnyType code
    | UnknownPvxsTypeCode   // no AnyType code for this PVXS code
    | EmptyTypeDef          // a member is made from a TypeDef that holds nothing
    | NotCompound           // a member is added to a TypeDef that is not a structure
    | EmptyStack            // a callback looks at the top of an empty node stack
    | ScalarTypeMismatch    // scalar type differs from the type of the PVXS slot
    | ArrayTypeMismatch     // element type differs from the type of the PVXS slot
    | NotScalar             // a scalar was expected
    | NotArray              // an array was expected
    | NotStructArray        // allocMember or freeze on something else than an array of structures
    | NotImplemented        // element separator outside an array
    | OutOfBounds           // more elements than were allocated
    | UnsupportedPvxsValue  // node kind without translation
    | ComposerMisuse        // composer call that does not fit the composer's state
    | DuplicateMember       // composer: member name used twice in one structure
    | MixedElementTypes     // composer: array elements of different types
    | NoElementType         // composer: an array ended before any element was added
    | InvalidConversion     // assignment of a value that does not convert to the target's type
    | IncompatibleUpdate    // a monitor update that does not convert to the cached type
    | HandlerFailed         // the RPC handler threw
    | NoContext             // the Channel Access context could not be established

  datatype Result<+T> = Ok(value: T) | Err(error: Error) {
    predicate IsFailure() {
      Err?
    }

    function PropagateFailure<U>(): Result<U>
      requires Err?
    {
      Err(error)
    }

    function Extract(): T
      requires Ok?
    {
      value
    }
  }
}
