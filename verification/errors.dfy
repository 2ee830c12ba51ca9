/** Failure outcomes of the unpacker. Each `anyhow!` message and each panic of
    src/main.rs that the pipeline can reach becomes one constructor, so that
    the model reports as an error value what the program reports by aborting. */
module Errors {

  datatype Error =
    | InvalidExecutable       // "Invalid nexe executable": no sentinel in the binary
    | TruncatedMetadata       // "Truncated nexe metadata": a length field runs past the end
    | SectionUnderflow        // panic: the declared sizes exceed the bytes before the sentinel
    | InvalidContentSection   // "Invalid content section": no JS marker in the content section
    | UnparsableMetadata      // "Unable to parse JSON metadata": no JSON value after the marker
    | MalformedMetadata       // serde_json error: bad JSON, or not the dictionary shape
    | MissingResources        // panic: the dictionary has no "resources" category
    | PayloadOutOfRange       // panic: an entry's byte range is not inside the resource section
    | InvalidFilename         // "Invalid filename": the sanitised path has no parent

  datatype Option<T> = None | Some(value: T)

  datatype Result<T> = Success(value: T) | Failure(error: Error) {
    predicate IsFailure() { Failure? }

    function PropagateFailure<U>(): Result<U>
      requires Failure?
    {
      Failure(error)
    }

    function Extract(): T
      requires Success?
    {
      value
    }
  }
}
