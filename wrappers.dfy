/** Outcome types shared by the object-store model. */
module Wrappers {

  datatype Option<T> = None | Some(value: T)

  /** The ways the commands of the program stop with an exception. */
  datatype Error =
    | HashTooShort        // `hash.substring(0, 2)` on a hash of fewer than two characters
    | ObjectNotFound      // `new FileInputStream(objectFile)` on a path that does not exist
    | InvalidObjectFile   // cat-file: no NUL byte in the inflated object
    | InvalidTreeObject   // ls-tree: no NUL byte in the inflated object
    | EntryWithoutSpace   // ls-tree: `Arrays.copyOfRange` past the end when an entry has no space
    | UnparsableHash      // write-tree: `substring`/`Integer.parseInt` rejects an entry's hash

  datatype Result<T> = Ok(value: T) | Err(error: Error)
}
