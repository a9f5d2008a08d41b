/** Status values shared by every part of the model: an optional value, the
    error kinds the engine reports, and results that carry either a value or
    one of those errors. */
module Outcomes {

  datatype Option<T> = None | Some(value: T)

  /** The failure kinds. The source prints most of them as short status lines
      ("PATH NOT FOUND", "EXIST", ...); the model returns them instead. */
  datatype Error =
    | VolumeIoError     // a cluster or table position outside the volume
    | NoSpace           // no FREE entry left in the allocation table
    | PathNotFound      // a path component could not be resolved
    | FileNotFound      // the named entry is not in its directory
    | AlreadyExists     // the destination name is already taken
    | NotEmpty          // a directory to remove still holds records
    | NameTooLong       // a leaf name longer than the 12-byte name field
    | InvalidName       // ".", ".." or "/" where a plain name is needed
    | IsADirectory      // a file operation applied to a directory
    | NotADirectory     // an existing destination that is not a directory
    | NoEmptySlot       // a directory cluster without a free record slot
    | CorruptedChain    // a chain walk that runs past the cluster count
    | IndexOutOfRange   // a Go run-time panic on an array index

  datatype Result<T> = Ok(value: T) | Err(error: Error)

  datatype Outcome = Pass | Fail(error: Error)
}
