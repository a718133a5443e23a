/** Values shared by the two stages of error reporting: extraction and rendering. */
module Records {

  datatype Option<T> = None | Some(value: T)

  datatype Result<T, E> = Success(value: T) | Failure(error: E)

  /** The fields of a decoded entry other than path, line and column
      (rule code, message, ...), each kept as its JSON text. They are carried
      through unchanged and take part in equality. */
  type Payload = map<string, string>

  /** One object of the analysis server's JSON output, after decoding. */
  datatype RawEntry = RawEntry(path: string, line: int, column: int, payload: Payload)

  /** A type error as the client reports it: the two flags computed during
      extraction, then the entry's fields with `path` rewritten relative to
      the caller's working directory. The model takes equality (and so set
      membership) to cover every field, the flags included. */
  datatype Error = Error(
    ignored: bool,
    external: bool,
    path: string,
    line: int,
    column: int,
    payload: Payload)

  /** What the reporting command reads from its arguments and configuration:
      `--verbose`, `--output`, the `ignore_all_errors` paths and the caller's
      (already resolved) current directory. */
  datatype Settings = Settings(
    verbose: bool,
    output: string,
    ignoreAllErrorsPaths: seq<string>,
    currentDirectory: string)

  const TEXT: string := "text"
  const JSON: string := "json"
}
