/**
 * The errors the Path component returns or passes through. Collaborators (codecs, the driver's
 * callback, the request library) may return any `Error`, including the component's own sentinels;
 * the model passes such errors on without inspecting them.
 */
module Errors {

  datatype Error =
      /** `component.ErrSetValue`: a value could not be set for a key. */
    | ErrSetValue
      /** `component.ErrKeyNotFound`: a key to delete is absent. */
    | ErrKeyNotFound
      /** A Value names a data format the registry does not hold. */
    | UnknownFormat(format: string)
      /** `errors.Wrap(cause, context)`: the cause with a context message in front of it. */
    | Wrapped(context: string, cause: Error)
}
