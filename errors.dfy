/** Error and result types shared by the whole model.  Go's wrapped error
    messages are replaced by one variant per kind of failure; a Go runtime
    panic (an index out of range) becomes a variant of its own. */
module Errors {

  /** What an operating-system call reports. */
  datatype IoKind =
    | NotExist   // ENOENT
    | NotDir     // ENOTDIR: a path component is a regular file
    | IsDir      // EISDIR: a directory where a file was expected
    | AlreadyExists  // EEXIST: the destination of a rename is taken
    | Invalid    // EINVAL: a path the model refuses (root, "..", moving into itself)

  datatype Error =
    | IoError(kind: IoKind, path: string)
    | NoChanges                         // SimpleCommit: old and new content are equal
    | NothingToCommit                   // FullCommit: no commit reference was produced
    | InvalidLineNumber(text: string)   // a `=` line whose number does not parse
    | LineOutOfRange(n: int)            // panic: `=n` indexes outside the replayed content
    | MalformedCommitName(name: string) // panic: a commit name without a `+`
    | NoCommits(key: string)            // LastCat on an empty chain

  datatype Option<+T> = None | Some(value: T)

  datatype Result<+T> = Ok(value: T) | Err(error: Error) {
    predicate IsFailure() { Err? }
    function PropagateFailure<U>(): Result<U> requires Err? { Err(error) }
    function Extract(): T requires Ok? { value }
  }
}
