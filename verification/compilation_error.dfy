/** The record the diagnostics parser builds: one `CompilationError` per
    source file, holding the places in that file where the compiler reported
    an error. */
module Diagnostics {
  import opened Text

  /** One reported error: its line, the message, and the two lines the
      compiler printed under it (the code excerpt and the `^` pointer).
      Any `Int` is accepted as a line; there is no sign or range check. */
  datatype Place = Place(line: int, reason: string, code: string, pointer: string)

  /** The per-file record. `file` is fixed at construction and is the key the
      parser looks records up by; `places` is the one field the parser
      changes, appending to it and re-sorting it in place. */
  class CompilationError {
    const file: string
    var places: seq<Place>

    constructor (file: string, places: seq<Place>)
      ensures this.file == file && this.places == places
    {
      this.file := file;
      this.places := places;
    }
  }

  /** The value held by a `CompilationError` at one moment. */
  datatype FileErrors = FileErrors(file: string, places: seq<Place>)

  /** The values held by a sequence of records. */
  function Snapshot(errors: seq<CompilationError>): (r: seq<FileErrors>)
    reads errors
    ensures |r| == |errors|
    ensures forall i :: 0 <= i < |errors| ==> r[i] == FileErrors(errors[i].file, errors[i].places)
  {
    seq(|errors|, i reads errors requires 0 <= i < |errors| => FileErrors(errors[i].file, errors[i].places))
  }

  /** The key a record is found by. */
  function ErrorFile(e: CompilationError): string {
    e.file
  }

  function FileOf(f: FileErrors): string {
    f.file
  }

  /** The name records are ordered by: the last component of the file path. */
  function ErrorName(e: CompilationError): string {
    LastPathComponent(e.file)
  }

  function NameOf(f: FileErrors): string {
    LastPathComponent(f.file)
  }
}
