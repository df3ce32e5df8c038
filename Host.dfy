/** What the generator touches outside its own logic: the file system, the
    Venus process, MD5, the csv writer, text encoding and `os.path.relpath`.
    Each foreign computation is a function-valued field of `Env`; nothing is
    assumed about it beyond its being a function of its arguments. */
module Host {
  import opened Paths

  newtype byte = b: int | 0 <= b < 256

  type Bytes = seq<byte>

  /** A finished Venus process: its exit code and the lines it printed to
      standard output (captured through a temporary file). */
  datatype Run = Run(exitCode: int, lines: seq<string>)

  /** The collaborators, fixed for one batch. */
  datatype Env = Env(
    venusJar: string,                 // str(venus_path)
    template: string,                 // the text of harnesses/run.circ as the batch starts
    venus: seq<string> -> Run,        // running the given command line
    md5: Bytes -> string,             // hashlib.md5(data).hexdigest()
    csv: seq<seq<string>> -> Bytes,   // what csv.writer writes for these rows
    encode: string -> Bytes,          // writing text to a file opened with "w"
    harnessRelPath: Path -> string    // os.path.relpath(cpu_harness_circ_path, dir)
  )

  /** `TestCreateException`, by the message it carries. */
  datatype TestCreateError =
    | VenusErrored(asm: string)
    | HarnessImportMissing(circ: string)
    | RomContentsMissing(circ: string)
    | HaltValueMissing(circ: string)

  /** The regular files on disk, by path; a path not in the map is not a file. */
  class FileSystem {
    var files: map<Path, Bytes>

    constructor (initial: map<Path, Bytes>)
      ensures files == initial
    {
      files := initial;
    }

    /** Opening `p` with "w" and writing: the file now holds exactly `data`,
        and no other file changes. */
    method Write(p: Path, data: Bytes)
      modifies this
      ensures files == old(files)[p := data]
    {
      files := files[p := data];
    }
  }
}
