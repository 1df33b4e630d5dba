/**
 * Reading a file, as `Differ#get_file_data` does (differ.rb:67-74): the
 * lines of the file, each stripped, or a failure that names the file.
 * The file system itself is a value handed in by the caller.
 */
module Files {
  import opened Wrappers
  import opened Text

  /** What `File.readlines` makes of a name: its lines, or the reason it failed. */
  datatype FileState = Readable(lines: seq<string>) | Unreadable(cause: string)

  /** The file system, by name. A name it does not hold cannot be read. */
  type FileSystem = map<string, FileState>

  /** The reason given for a name the file system does not hold. */
  const MissingFile: string := "No such file or directory"

  /** The error `get_file_data` raises: the file name and the underlying message. */
  datatype LoadError = LoadError(file: string, cause: string)

  /** The text of the raised error: `"Unable to process #{file}:\n#{e.message}"`. */
  function Message(e: LoadError): string
  {
    "Unable to process " + e.file + ":\n" + e.cause
  }

  /** `File.readlines(file).map(&:strip)`, with a failure wrapped so that it names the file. */
  function ReadLines(fs: FileSystem, name: string): (r: Result<seq<string>, LoadError>)
    ensures r.Ok? <==> name in fs && fs[name].Readable?
    ensures r.Err? ==> r.error.file == name
    ensures r.Ok? ==> |r.value| == |fs[name].lines|
    ensures r.Ok? ==> forall k :: 0 <= k < |r.value| && |r.value[k]| > 0 ==>
      !IsSpace(r.value[k][0]) && !IsSpace(r.value[k][|r.value[k]| - 1])
    ensures r.Ok? ==> forall k :: 0 <= k < |r.value| ==> r.value[k] == Strip(fs[name].lines[k])
  {
    if name !in fs then Err(LoadError(name, MissingFile))
    else match fs[name]
      case Unreadable(cause) => Err(LoadError(name, cause))
      case Readable(lines) => Ok(seq(|lines|, k requires 0 <= k < |lines| => Strip(lines[k])))
  }
}
