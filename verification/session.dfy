/**
 * The command line's bookkeeping around an interpretation: which paths it
 * accepts, when it writes the output file, what it stores for `--recent`
 * (the mirror file, the recipe and the source information) and how
 * `--recent` replays the stored run.
 *
 * The file system is a map from a resolved path to what is there; a path
 * outside the map does not exist.
 */
module Session {
  import opened Wrappers
  import opened PyText
  import opened Recipe
  import opened Frames

  datatype Node = RegularFile | Directory

  type FileSystem = map<string, Node>

  // ---------------------------------------------------------- python file

  /** The verdict of `pyfile_path_validator`; the two failures carry the
      path the error message shows. */
  datatype PathVerdict = Valid | NotPythonFile(path: string) | DoesNotExist(path: string)

  function PyfilePathValidator(fs: FileSystem, path: string): (v: PathVerdict)
    ensures v == Valid <==> path in fs && fs[path] == RegularFile && EndsWith(path, ".py")
    ensures v == DoesNotExist(path) <==> path !in fs
    ensures v == NotPythonFile(path) <==> path in fs && !(fs[path] == RegularFile && EndsWith(path, ".py"))
    ensures v.Valid? || v == DoesNotExist(path) || v == NotPythonFile(path)
  {
    if path in fs then
      if fs[path] == RegularFile && EndsWith(path, ".py") then Valid
      else NotPythonFile(path)
    else DoesNotExist(path)
  }

  // ---------------------------------------------------------- output file

  /** What `get_output` does with the requested output path. */
  datatype OutputVerdict = WriteOutput | AlreadyExists | NotTxtFile

  function OutputDecision(fs: FileSystem, output: string): (v: OutputVerdict)
    ensures v == WriteOutput <==> EndsWith(output, ".txt") && output !in fs
    ensures v == AlreadyExists <==> EndsWith(output, ".txt") && output in fs && fs[output] == RegularFile
    ensures v == NotTxtFile <==> !EndsWith(output, ".txt") || (output in fs && fs[output] == Directory)
  {
    if EndsWith(output, ".txt") && !(output in fs && fs[output] == Directory) then
      if output !in fs then WriteOutput
      else
        assert fs[output].RegularFile?;
        AlreadyExists
    else NotTxtFile
  }

  /** The file system after `get_output`: a new regular file when the
      decision allows it, nothing otherwise. */
  function AfterOutput(fs: FileSystem, output: string): FileSystem {
    if OutputDecision(fs, output) == WriteOutput then fs[output := RegularFile] else fs
  }

  // -------------------------------------------------------------- storage

  /** `Path(cwd, p)`: a relative path is taken from the working directory. */
  function ResolvePath(cwd: string, p: string): (r: string)
    ensures EndsWith(p, ".py") ==> EndsWith(r, ".py")
  {
    if StartsWith(p, "/") then p
    else
      assert (cwd + "/" + p)[|cwd + "/" + p| - |p|..] == p;
      cwd + "/" + p
  }

  /** What main leaves behind for `--recent`; a file that was never
      written is None. */
  datatype Stored = Stored(mirror: Option<string>, recipe: Option<seq<string>>, sourceInfo: Option<seq<string>>)

  const Nothing := Stored(None, None, None)

  /** Main's three writes after a clean syntax check: the recipe (or the
      default one), the resolved script path followed by its arguments, and
      the mirror file, the interpreter's header followed by the script. */
  function Persist(options: Options, cwd: string, script: string, args: seq<string>, source: seq<string>): Stored {
    Stored(
      Some(Concat(MirrorLines(source))),
      Some(StoredRecipe(options)),
      Some([ResolvePath(cwd, script)] + args))
  }

  /** What `--recent` does: runs the stored mirror with the stored arguments
      (its hook then reads the stored recipe), or reports why it cannot. */
  datatype Replay =
    | Run(mirror: string, args: seq<string>, recipe: seq<string>)
    | Corrupted
    | NoInformation

  /** `recent_interpretation` with main's `get_source_info(...)[1:]` as the
      arguments. */
  function RecentInterpretation(stored: Stored, fs: FileSystem): (r: Replay)
    ensures r.Run? <==> && stored.mirror.Some? && stored.recipe.Some? && stored.sourceInfo.Some?
                        && |stored.sourceInfo.value| > 0 && stored.sourceInfo.value[0] in fs
    ensures r.Run? ==> && Some(r.mirror) == stored.mirror && Some(r.recipe) == stored.recipe
                       && r.args == stored.sourceInfo.value[1..]
    ensures r == NoInformation <==> stored.mirror.None? || stored.recipe.None? || stored.sourceInfo.None?
  {
    match (stored.mirror, stored.recipe, stored.sourceInfo)
    case (Some(mirror), Some(recipe), Some(info)) =>
      if |info| > 0 && info[0] in fs then Run(mirror, info[1..], recipe) else Corrupted
    case _ => NoInformation
  }
}
