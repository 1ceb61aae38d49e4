/**
 What the two wildcard nodes learn from the file system about their wildcard
 file, and the non-fatal problems they report instead of a prompt. The file
 system itself is not modelled: the answers of `os.path.exists`,
 `os.path.isfile` and of reading the file are parameters.
 */
module WildcardFile {
  import opened Results
  import opened Lines

  /** What `os.path.exists` and `os.path.isfile` say about the path. */
  datatype PathKind = Absent | NotRegular | Regular

  /** What opening and reading the file as UTF-8 text produces. */
  datatype ReadResult = Text(contents: string) | NotFound | NoPermission | Unreadable

  /** The recoverable conditions; each is returned as a warning string in place of a
      prompt, never raised to the host. */
  datatype Problem =
    | MissingPath    // the path is empty or does not exist
    | NotAFile       // the path exists but is not a regular file
    | NoPrompts      // the file has no line that is non-empty after stripping
    | FileNotFound   // reading raised FileNotFoundError
    | NoPermission   // reading raised PermissionError
    | ReadFailed     // any other exception while serving the call

  /** The path checks both nodes make before touching the file. */
  function CheckPath(path: string, kind: PathKind): (r: Option<Problem>)
    ensures r.None? <==> path != "" && kind.Regular?
    ensures r == Some(MissingPath) <==> path == "" || kind.Absent?
    ensures r == Some(NotAFile) <==> path != "" && kind.NotRegular?
  {
    if path == "" || kind.Absent? then Some(MissingPath)
    else if kind.NotRegular? then Some(NotAFile)
    else None
  }

  /** Reads the prompt list of the file, or the problem reading it raised. */
  function LoadPrompts(read: ReadResult): (r: Result<seq<string>, Problem>)
    ensures read.Text? <==> r.Success?
    ensures read.Text? ==> r.value == PromptLines(read.contents)
    ensures read.NotFound? ==> r == Failure(FileNotFound)
    ensures read.NoPermission? ==> r == Failure(Problem.NoPermission)
    ensures read.Unreadable? ==> r == Failure(ReadFailed)
  {
    match read
    case Text(t) => Success(PromptLines(t))
    case NotFound => Failure(FileNotFound)
    case NoPermission => Failure(Problem.NoPermission)
    case Unreadable => Failure(ReadFailed)
  }
}
