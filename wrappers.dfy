/** Option and the outcome of a Python call that may raise. */
module Wrappers {

  datatype Option<+T> = None | Some(value: T)

  /** The Python exceptions the modelled code can raise. */
  datatype Exception =
    | JsonDecodeError     // json.loads('') on a freshly created, empty snapshot file
    | UnboundLocalError   // `is_new` read although the loop that binds it never ran
    | IndexError          // `face_encodings(...)[0]` on an image with no face
    | KeyError            // `dict.pop(stem)` of a stem that is not in the cache
    | EofError            // `input()` after the answers on standard input ran out

  /** Either the value a call returns or the exception it raises. */
  datatype Result<+T> = Ok(value: T) | Raise(error: Exception)
}
