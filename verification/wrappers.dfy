/** Option and Result types for the source's nullable returns and thrown errors. */
module Wrappers {

  datatype Option<+T> = None | Some(value: T)

  /** The error conditions the store raises (each is a thrown `Error` in the source). */
  datatype Error =
    | InvalidActionForTarget  // an operation's action does not fit the target CRDT's type
    | CRDTAlreadyExists       // a CRDT is created under an identifier already in the store
    | InvalidTarget           // a local write names a missing CRDT or one of the wrong kind
    | EmptyRegister           // the materialiser reads the active value of a register with no pairs

  datatype Result<+T> = Ok(value: T) | Err(error: Error)
}
