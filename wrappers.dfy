/** The optional value used for `null` in the note store: a missing active id,
    a cancelled prompt, a note that is not found. */
module Wrappers {

  datatype Option<+T> = None | Some(value: T)
}
