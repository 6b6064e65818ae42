/** Shared result, error and warning types of the lint core. */
module Base {

  datatype Option<+T> = None | Some(value: T)

  /** The errors the core returns, one constructor per distinct error the Go code builds. */
  datatype Error =
    // repo.go / cve.go: identifier codec and path classifier
    | UnparsableID(id: string)                  // the nvd library cannot split the identifier
    | SequenceInvalid(seqStr: string, subDir: string) // "CVE sequence invalid"
    | SubPathError(id: string, cause: Error)    // "error parsing <id> sequence to dir"
    | UnmatchedPath(path: string)               // "unable to match path"
    // file.go: front matter parsing and rewriting
    | FrontMatterError                          // the front-matter splitter failed
    | MarshalError                              // yaml.Marshal of the front matter failed
    | UnmarshalError                            // yaml.Unmarshal into the record failed
    | UnknownType                               // neither a CVE nor a Researcher
    | EncodeError(path: string)                 // "error marshaling yaml to <path>"
    | WriteError(path: string)                  // "error writing to <path>"
    // lint.go: per-file lint failures
    | OpenError(path: string)                   // "error opening <path>"
    | SlicePanic(path: string)                  // the runtime panic of slicing the last three elements of a shorter path
    | ParseError(relPath: string, cause: Error) // "error parsing cve file"
    | ResearcherParseError(cause: Error)        // "error parsing cve file", said of a researcher file
    | InvalidCVEID(id: string, relPath: string) // "invalid CVE ID"
    | CompileError(cause: Error)                // "error compiling ... file"
    // the version-control collaborator
    | VcsError(reason: string)

  datatype Result<+T> = Ok(value: T) | Err(error: Error)

  /** The non-fatal messages lint prints with the "[warn]" prefix. */
  datatype Warning =
    | DirMismatch(key: string, got: string, want: string) // "invalid dir for <key>: got <got>; want <want>"
    | NoCVEs(alias: string, relPath: string)              // "no CVEs defined for <alias>"
    | InvalidCVERef(id: string, relPath: string)          // "invalid CVE ID <id>" inside a researcher file
}
