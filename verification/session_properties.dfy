/**
 * What the bookkeeping promises: the output file never replaces anything,
 * and `--recent` repeats exactly the run that was stored as long as the
 * script is still where it was.
 */
module SessionProperties {
  import opened Wrappers
  import opened PyText
  import opened Recipe
  import opened Frames
  import opened Renderers
  import opened HookErrors
  import opened Report
  import opened Session
  import ReportProperties
  import RecipeProperties

  /** The output file is written exactly when the path ends in `.txt` and
      nothing is there yet; an existing file is reported, a directory or
      another suffix is refused. */
  lemma OutputDecisionCases(fs: FileSystem, output: string)
    ensures OutputDecision(fs, output) == WriteOutput <==> EndsWith(output, ".txt") && output !in fs
    ensures OutputDecision(fs, output) == AlreadyExists <==>
      EndsWith(output, ".txt") && output in fs && fs[output] == RegularFile
    ensures OutputDecision(fs, output) == NotTxtFile <==>
      !EndsWith(output, ".txt") || (output in fs && fs[output] == Directory)
  {
  }

  /** Writing the output never overwrites: every path that existed keeps
      what it held, and the only new path is the output file. */
  lemma OutputNeverOverwrites(fs: FileSystem, output: string)
    ensures forall p :: p in fs ==> p in AfterOutput(fs, output) && AfterOutput(fs, output)[p] == fs[p]
    ensures forall p :: p in AfterOutput(fs, output) ==> p in fs || p == output
    ensures output in AfterOutput(fs, output) <==> output in fs || OutputDecision(fs, output) == WriteOutput
  {
  }

  /** A script the validator accepts, once stored, is replayed by `--recent`
      with the same mirror, the same arguments and the recipe main chose. */
  lemma ReplayRepeatsStoredRun(options: Options, cwd: string, script: string, args: seq<string>, source: seq<string>, fs: FileSystem)
    requires PyfilePathValidator(fs, ResolvePath(cwd, script)) == Valid
    ensures RecentInterpretation(Persist(options, cwd, script, args, source), fs) ==
      Run(Concat(MirrorLines(source)), args, StoredRecipe(options))
  {
    assert ([ResolvePath(cwd, script)] + args)[1..] == args;
  }

  /** Writing the output file does not disturb a later `--recent`. */
  lemma ReplayAfterOutput(options: Options, cwd: string, script: string, args: seq<string>, source: seq<string>, fs: FileSystem, output: string)
    requires PyfilePathValidator(fs, ResolvePath(cwd, script)) == Valid
    ensures RecentInterpretation(Persist(options, cwd, script, args, source), AfterOutput(fs, output)) ==
      Run(Concat(MirrorLines(source)), args, StoredRecipe(options))
  {
    OutputNeverOverwrites(fs, output);
    assert PyfilePathValidator(AfterOutput(fs, output), ResolvePath(cwd, script)) == Valid;
    ReplayRepeatsStoredRun(options, cwd, script, args, source, AfterOutput(fs, output));
  }

  /** Once the script is gone, `--recent` reports corrupted information. */
  lemma ReplayAfterDeletion(options: Options, cwd: string, script: string, args: seq<string>, source: seq<string>, fs: FileSystem)
    ensures RecentInterpretation(Persist(options, cwd, script, args, source), fs - {ResolvePath(cwd, script)}) == Corrupted
  {
  }

  /** Any of the three files missing means there is nothing to replay;
      empty source information is corrupted. */
  lemma ReplayNeedsAllThree(stored: Stored, fs: FileSystem)
    ensures RecentInterpretation(stored, fs) == NoInformation <==>
      stored.mirror.None? || stored.recipe.None? || stored.sourceInfo.None?
    ensures stored.mirror.Some? && stored.recipe.Some? && stored.sourceInfo == Some([]) ==>
      RecentInterpretation(stored, fs) == Corrupted
  {
  }

  /** The replayed recipe is never empty, and with the command line's own
      option names it never makes the hook fail at dispatch. */
  lemma ReplayedRecipeRenders(options: Options, cwd: string, script: string, args: seq<string>, source: seq<string>, fs: FileSystem, ctx: Context)
    requires forall i :: 0 <= i < |options| ==> options[i].0 in NonModeOptions || options[i].0 in ModeOptions
    ensures var r := RecentInterpretation(Persist(options, cwd, script, args, source), fs);
      r.Run? ==> r.recipe != [] && (DisplayErrorMessage(ctx, r.recipe).Failure? ==>
        !DisplayErrorMessage(ctx, r.recipe).error.SearchInBody? && !DisplayErrorMessage(ctx, r.recipe).error.UnknownEntry?)
  {
    RecipeProperties.StoredRecipeDefault(options);
    ReportProperties.StoredRecipeHasNoDispatchError(ctx, options);
  }
}
