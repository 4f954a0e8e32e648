/** Shared vocabulary of the marketplace backend model: optional values,
    results with an error side, document identifiers, and the foreign library
    checks the backend calls but whose internals are not part of this model. */
module Base {

  /** A value that may be absent (a missing header, an unresolved reference). */
  datatype Option<+T> = None | Some(value: T)

  /** The outcome of an operation that either succeeds or fails with an error. */
  datatype Result<+T, +E> = Ok(value: T) | Err(error: E)

  /** Document identifiers (MongoDB ObjectIds in their canonical 24-digit
      lower-case hexadecimal spelling) are compared as strings. */
  type Id = string

  /** The library predicates the backend relies on, kept uninterpreted:
      the validator library's isEmail, isURL, isMongoId and normalizeEmail,
      the document mapper's decision whether a string casts to an ObjectId,
      and the canonical spelling of the ObjectId a castable string casts to
      (so "507F1F77BCF86CD799439011" and "507f1f77bcf86cd799439011" name the
      same document). */
  datatype Library = Library(
    isEmail: string -> bool,
    isURL: string -> bool,
    isMongoId: string -> bool,
    normalizeEmail: string -> string,
    castsToObjectId: string -> bool,
    canonicalId: string -> Id
  )
}
