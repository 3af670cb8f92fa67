/** Optional values and the outcome of a step that may raise a Python exception. */
module Wrappers {

  datatype Option<T> = None | Some(value: T)

  /** The uncaught Python exceptions the converter can end with. */
  datatype PyError =
    | TypeError   // int(None), or iterating over a `find` that returned None
    | IndexError  // xml_root[0] on a root without children
    | KeyError    // the schema-location attribute is missing on the XML root

  datatype Result<T> = Ok(value: T) | Err(error: PyError)
}
