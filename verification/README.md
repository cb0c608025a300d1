# pymg: the report pipeline, modelled in Dafny

pymg runs a user's Python script through a *mirror file*. The mirror file is a
copy of the script with three header lines in front. Those lines install
pymg's own excepthook, `display_error_message`. When the script raises, the
hook reads a stored *recipe*, which is a list of report modes such as `type`,
`trace` or `inner_with_locals`. It renders each mode into one section and
prints the sections together in one "Exception" panel. A `search` entry is
printed last, on its own.

This project models the core of `pymg/pymg.py`:

- **Recipe** (`recipe.dfy`, `recipe_properties.dfy`):
  - `main` drops the non-mode options.
  - `prioritizing_options` merges `trace`/`inner` with `locals`, drops the per-field modes when a trace mode is present, and moves `search` to the end.
  - `main` stores `["inner_with_locals"]` when the result is empty.
- **Frames** (`frames.dfy`):
  - the mirror file is the header followed by the source;
  - target frames are the frames whose file is the mirror;
  - the line offset of three;
  - the innermost target frame;
  - the locals filter.
- **Pointers** (`pointer.dfy`): `gen_pointer`, with and without line numbers.
- **Renderers** (`renderers.dfy`, `renderer_properties.dfy`): every `gen_*` section except `gen_search`.
- **Report** (`report.dfy`, `report_properties.dfy`): `display_error_message`. This covers:
  - the dispatch table;
  - the removal of the first `search`;
  - the template comprehension;
  - the panel and the trailing search.
- **Syntax errors** (`syntax_error.dfy`, `syntax_properties.dfy`): the parsing half of `display_syntax_error`, for its three dialects. These are the TabError and IndentationError diagnostics that read the code from the script, and the generic dialect that takes the code and carets from the diagnostic.
- **Session** (`session.dfy`, `session_properties.dfy`):
  - `pyfile_path_validator`;
  - the output-file decision of `get_output`;
  - what `main` stores for `--recent`;
  - `recent_interpretation`.

A call that would raise inside the hook is a `Failure`. The errors are declared in `hook_errors.dfy` (**HookErrors**):

- an `UnboundLocalError` when no frame comes from the script (`NoTargetFrame`);
- an `IndexError` on the source;
- an `AttributeError` on a blank line;
- a `KeyError` on an unknown entry (`UnknownEntry`);
- a `TypeError` when a second `search` is left in the template and its `None` result is iterated (`SearchInBody`).

The model does not say what Python prints after such a failure. That output is the interpreter's "Error in sys.excepthook" report with both tracebacks; for `SearchInBody` it comes after the search's own output. The file system, the pickled files and the traceback are parameters.

Four behaviours of the code are worth stating on their own:

- Sections are joined with no divider.
- `scope`, `line` and `code` fail with `NoTargetFrame` when no frame comes from the script, because the code leaves its loop variable unbound.
- With line numbers, `gen_pointer` sizes the wide-number padding by `lineno - 4`, while the panel shows `lineno - 3` for a script frame and `lineno` for any other frame. The trace sections follow the code (`Pointers.GenPointer`). The padding for the number shown is the separate `Pointers.GenPointerForShownLine`, and "## Findings" records the difference.
- The generic syntax dialect reports the line number exactly as printed, with no offset: `File "x.py", line 9` gives 9 (`SyntaxProperties.GenericScenario`).

## Model

| member | source | states |
|---|---|---|
| Recipe.FilterOptions | pymg/pymg.py:1023-1029 | every kept option is one of the given ones and not a non-mode option; every given mode option is kept |
| Recipe.Available | pymg/pymg.py:870-872 | a name is available exactly when it was given with a true value |
| RecipeProperties.FilterOptionsKeepsOrder | pymg/pymg.py:1023-1029 | the kept options are a subsequence of the given ones: they keep their command-line order |
| RecipeProperties.AvailableKeepsOrder | pymg/pymg.py:870-872 | the available names are a subsequence of the option names: they keep their command-line order |
| Recipe.SortOptions | pymg/pymg.py:874-896 | the loop builds exactly the trace/inner list and the per-field draft list of the reference definitions |
| Recipe.PrioritizingOptions | pymg/pymg.py:858-904 | the statement-by-statement method returns the recipe of the reference definition `Prioritize` |
| RecipeProperties.PrioritizedMembers | pymg/pymg.py:874-893 | an entry is in the trace/inner list iff its base option was requested and the `locals` flag picks that variant |
| RecipeProperties.DraftMembers | pymg/pymg.py:895-896 | the draft holds exactly the requested options other than trace, inner and search |
| RecipeProperties.PrioritizedEmpty | pymg/pymg.py:874-899 | the draft is used exactly when neither trace nor inner was requested |
| RecipeProperties.SearchIsLastAndOnce | pymg/pymg.py:901-902 | `search` is in the recipe iff requested, and then it is the last entry and occurs only there |
| RecipeProperties.TraceMergesLocals | pymg/pymg.py:875-879 | trace with locals yields `trace_with_locals`; neither `trace` nor `locals` remains |
| RecipeProperties.InnerMergesLocals | pymg/pymg.py:881-885 | inner with locals yields `inner_with_locals`; neither `inner` nor `locals` remains |
| RecipeProperties.PlainTraceAndInnerInOrder | pymg/pymg.py:887-893 | without locals, the body is the requested trace/inner options in the order given |
| RecipeProperties.FieldsWhenNoTraceOrInner | pymg/pymg.py:895-902 | with no trace or inner, the recipe is every requested option but search, in order, then search if requested |
| RecipeProperties.TraceOrInnerDropsFields | pymg/pymg.py:898-899 | once trace or inner is requested, no per-field mode reaches the recipe |
| RecipeProperties.VariantsExclusive | pymg/pymg.py:875-893 | the plain and locals variants of trace (and of inner) never appear together |
| RecipeProperties.RecipeDistinct | pymg/pymg.py:870-904 | distinct option names give a recipe without duplicates |
| RecipeProperties.EmptyRecipeIffNothingSet | pymg/pymg.py:870-904 | the recipe is empty exactly when no option is set |
| RecipeProperties.StoredRecipeDefault | pymg/pymg.py:1031-1036 | the stored recipe is never empty; the default `["inner_with_locals"]` is stored in place of the prioritized recipe exactly when no mode was set |
| Recipe.StoredRecipe | pymg/pymg.py:1031-1036 | what `main` stores is never empty, and anything but `["inner_with_locals"]` is the prioritized recipe of the mode options |
| RecipeProperties.SearchOnlyRecipe | pymg/pymg.py:1031-1036 | asking for search alone stores `["search"]`, with no default body |
| RecipeProperties.StoredRecipeIsDispatchable | pymg/pymg.py:818-825 | command-line option names only ever produce entries the hook's dispatch table knows |
| Frames.InnermostTarget | pymg/pymg.py:315-318 | returns the last frame from the mirror file; none exactly when no frame is from it |
| Frames.TargetPositions | pymg/pymg.py:573-574 | lists exactly the positions of the frames from the mirror file, strictly increasing, so in stack order |
| Frames.MirrorLines | pymg/pymg.py:77-95 | the mirror file is the three header lines followed by the script's lines, unchanged |
| Frames.VisibleLocals | pymg/pymg.py:499-503 | no more pairs than locals, and no listed name is a dunder name or the hook's own name |
| Frames.MirrorShiftsSourceByHeader | pymg/pymg.py:92 | the mirror text is the header text then the source text, and the header holds exactly three line breaks |
| Frames.HeaderLinesTerminated | pymg/pymg.py:944-948 | each of the three header lines ends in its only newline |
| Frames.MirrorLineIsSourceLine | pymg/pymg.py:338-341 | mirror line `n` past the header is line `n - 3` of the script, the number `gen_line` shows |
| Frames.VisibleLocalsExactly | pymg/pymg.py:499-503 | a `name = value` pair is listed iff the frame binds it and the filter admits it |
| Frames.HiddenLocalsNeverShown | pymg/pymg.py:499-503 | dunder names and the hook's own name are never listed; every admitted local is |
| Pointers.GutterPadWhenWide | pymg/pymg.py:371-373 | extra gutter padding is added iff the number has two or more characters, and always equals that width less one |
| Pointers.GenPointer | pymg/pymg.py:348-386 | only a script frame's pointer can fail, and then with a missing-line or blank-line error at script index `lineno - 4`; a foreign frame gets one caret per code character; a script frame whose columns are in order gets one caret per column it spans |
| Pointers.PointerFailsOnlyOnTargetSource | pymg/pymg.py:348-386 | `gen_pointer` raises iff the frame is a target and its script line is out of range or blank |
| Pointers.NumberedPointerShift | pymg/pymg.py:360-384 | with line numbers the pointer renders iff it does without, with the same carets, pushed right by four blanks and `len(str(lineno - 4)) - 1` more when that number has two or more characters |
| Pointers.PointerClearsShownGutter | pymg/pymg.py:360-373 | `GenPointerForShownLine`, which pads for the shown number, moves the carets right by exactly three columns plus one per character of the line number the panel shows |
| Pointers.PaddingsDiffer | pymg/pymg.py:360-373 | the code's padding and the shown-number padding differ by exactly the width of the shown number less the width of `lineno - 4` |
| Pointers.AsWrittenPadMissesGutter | pymg/pymg.py:360-373 | the code pads a script frame shown as line 10, or a foreign frame at lines 10 to 13, one blank less than its gutter needs, and a foreign frame at lines 1 to 3 one blank more |
| Pointers.PointerReadsFrameLine | pymg/pymg.py:360 | index `lineno - 4` is the script line the frame's mirror line copies |
| Pointers.CodePointerValue | pymg/pymg.py:374-382 | without line numbers, a target frame's carets start at its column less the line's indentation and span its columns |
| Pointers.CodePointerUnderFailingText | pymg/pymg.py:374-382 | the carets under the stripped code cover exactly the characters between the frame's columns in the script line |
| Pointers.CaretsUnderStretch | pymg/pymg.py:374-382 | the same for any code line that is a stretch of the script line starting at its first non-blank |
| Renderers.GenScope | pymg/pymg.py:302-322 | fails iff no frame is from the script; otherwise it shows the innermost script frame's scope |
| Renderers.GenLine | pymg/pymg.py:325-345 | fails iff no frame is from the script; otherwise it shows the innermost script frame's line in script numbering |
| Renderers.GenCode | pymg/pymg.py:389-413 | fails without a script frame; otherwise it shows the innermost script frame's code and pointer, or that pointer's failure |
| Renderers.Panels | pymg/pymg.py:439-470 | a trace loop succeeds iff every frame it shows has a renderable panel |
| Renderers.PanelAt | pymg/pymg.py:439-470 | a frame's panel renders iff its numbered pointer does, failing with that pointer's error; it is numbered `i + 1`, titled with the frame's scope, and lists locals iff asked |
| Renderers.GenTrace | pymg/pymg.py:416-472 | `gen_trace` renders iff every frame's panel does; it can fail only on a script frame's source line; it starts with the type and message lines |
| Renderers.GenTraceWithLocals | pymg/pymg.py:475-547 | the same for `gen_trace_with_locals`, with locals shown |
| Renderers.GenInner | pymg/pymg.py:550-599 | `gen_inner` renders iff every script frame's panel does; it starts with the type and message lines |
| Renderers.GenInnerWithLocals | pymg/pymg.py:602-665 | the same for `gen_inner_with_locals`, with locals shown |
| Renderers.GenLocals | pymg/pymg.py:668-709 | `gen_locals` gives a blank and a panel per script frame, and nothing exactly when no frame is from the script |
| RendererProperties.PanelsListShownFrames | pymg/pymg.py:439-470 | a rendered trace holds one panel per shown frame, in stack order |
| RendererProperties.PanelsFailAtFirstBadFrame | pymg/pymg.py:439-470 | a failing trace reports the error of the first shown frame whose panel fails; every earlier shown frame renders |
| RendererProperties.PanelTitle | pymg/pymg.py:462 | a panel is titled with its frame's stack number (from 1) and scope |
| RendererProperties.TraceNumbersEveryFrame | pymg/pymg.py:416-472 | `gen_trace`: type and message lines, then a blank and a panel numbered `k + 1` for every frame `k` |
| RendererProperties.InnerKeepsStackNumbers | pymg/pymg.py:550-599 | `gen_inner`: panels only for script frames, in order, each keeping its full-stack number |
| RendererProperties.PanelFailsOnlyOnTarget | pymg/pymg.py:439-470 | only a script frame's panel can fail, and the locals flag does not change whether it does |
| RendererProperties.TraceAndInnerFailTogether | pymg/pymg.py:416-665 | the full trace fails iff the inner trace does, with or without locals |
| RendererProperties.LocalsOnlyAddLocals | pymg/pymg.py:498-547 | the locals variant differs only in the locals part: the visible locals for a script frame, the no-locals marker otherwise |
| RendererProperties.TargetPanelShowsScriptLine | pymg/pymg.py:441-455 | a script frame's panel shows the script's path and starts at the script line its mirror line copies; it fails iff that line is blank |
| RendererProperties.ForeignPanelAsReported | pymg/pymg.py:441-455 | a foreign frame's panel always renders, with the frame's own path and line, one caret per code character, indented by four blanks plus `len(str(lineno - 4)) - 1` when that number has two or more characters (5 at line 1, 4 at line 10) |
| RendererProperties.GenLocalsListsScriptFrames | pymg/pymg.py:668-709 | `gen_locals`: a blank and a locals panel per script frame, in order, titled with its scope and listing its visible locals |
| RendererProperties.ScopeLineAndCodeAgree | pymg/pymg.py:315-406 | `gen_scope`, `gen_line` and `gen_code` all describe the same innermost script frame |
| RendererProperties.CodeAtInnermost | pymg/pymg.py:402-413 | `gen_code` is that frame's code over its pointer, or that pointer's failure |
| RendererProperties.CodeCaretsUnderFailure | pymg/pymg.py:389-413 | with the frame's columns inside its code, `gen_code` succeeds and its carets underline exactly the failing characters |
| ReportProperties.RenderAllAppend | pymg/pymg.py:833-839 | rendering two recipes back to back is the first's failure, or both outputs in order |
| Report.Render | pymg/pymg.py:818-838 | an entry fails with `SearchInBody` exactly when it is `search`, fails with `UnknownEntry` when it is outside the dispatch table, and always renders when it is `type`, `message`, `file` or `locals` |
| Report.RenderAll | pymg/pymg.py:833-839 | a failing template fails with the error of its first failing entry, every entry before which renders |
| Report.RemoveFirst | pymg/pymg.py:829-831 | removes exactly the first occurrence and keeps every other entry in order |
| Report.DisplayErrorMessage | pymg/pymg.py:798-855 | the hook succeeds iff the template renders, and otherwise fails with the template's error; it prints at most the panel and the search, and the search comes last iff requested |
| ReportProperties.RenderAllSucceedsIff | pymg/pymg.py:833-839 | the template renders iff every entry of the body renders |
| ReportProperties.RenderSingle | pymg/pymg.py:833-839 | a one-entry body gives exactly that entry's section |
| ReportProperties.RenderDispatchErrors | pymg/pymg.py:818-838 | an entry fails for want of a renderer iff it is `search` or not in the dispatch table |
| ReportProperties.NoDispatchErrorInPanels | pymg/pymg.py:439-470 | a trace section fails only on a script frame's missing or blank source line |
| ReportProperties.BodyEntries | pymg/pymg.py:829-831 | without `search` the template is the recipe; with it, the template is the recipe less its first `search`, the others in order; no `search` remains iff there was at most one |
| ReportProperties.SearchShownLastIffRequested | pymg/pymg.py:829-855 | the search result is printed iff requested and always last; the panel is printed iff the template is non-empty |
| ReportProperties.StoredRecipeHasNoDispatchError | pymg/pymg.py:816-855 | a recipe `main` stores never trips the dispatch table |
| ReportProperties.StoredRecipeSearchOnce | pymg/pymg.py:898-902 | a stored recipe holds `search` at most once |
| ReportProperties.SecondSearchFails | pymg/pymg.py:829-838 | a recipe with `search` twice renders the second into the template and so fails |
| ReportProperties.ScriptFieldsNeedScriptFrame | pymg/pymg.py:302-413 | when no frame is from the script, a recipe with scope, line or code fails |
| ReportProperties.DefaultRecipeOutsideScript | pymg/pymg.py:626-665 | the default recipe on an exception outside the script prints the type and message lines alone |
| ReportProperties.SearchOnlyPrintsSearch | pymg/pymg.py:829-855 | a recipe of `search` alone prints no exception panel, only the search |
| ReportProperties.FileReport | pymg/pymg.py:284-299 | `file` shows the path stored for the original script, whichever frame raised |
| ReportProperties.TypeAndMessageReport | pymg/pymg.py:252-281 | `type, message` on any exception gives one panel with the type line then the message line |
| SyntaxProperties.TabRoundTrip | pymg/pymg.py:214-219 | a TabError diagnostic parses back to its message and line number, with the code from that script line; a line past the end fails |
| SyntaxProperties.TabParse | pymg/pymg.py:214-219 | on any text of the form `a(b`, the line number is the digits after the last comma of `b` |
| SyntaxProperties.IndentationRoundTrip | pymg/pymg.py:227-231 | an IndentationError diagnostic parses back to its message and line number, with the code from that script line |
| SyntaxProperties.IndentationMessage | pymg/pymg.py:231 | the message is the third colon field up to its parenthesis, stripped |
| SyntaxProperties.IndentationParse | pymg/pymg.py:227-231 | once the line number and message fields are known, the branch yields them with the script's line |
| SyntaxProperties.GenericRoundTrip | pymg/pymg.py:221-225 | a generic diagnostic parses back to its line number, stripped code, caret line and message, whatever the script holds |
| SyntaxProperties.GenericParse | pymg/pymg.py:221-225 | once the comma and the lines after it are known, the branch yields its four fields |
| SyntaxProperties.GenericNeedsComma | pymg/pymg.py:223 | generic text without a comma fails as `index` does |
| SyntaxProperties.GenericScenario | pymg/pymg.py:221-225 | `File "x.py", line 9` over `def f(:` parses to line 9 with the code `def f(:` |
| SyntaxProperties.PanelPointerShift | pymg/pymg.py:233-238 | the panel shows the parsed line and code; the caret line is the parsed one below line 10 and gains `len(str(lineno)) - 1` leading blanks from line 10 on |
| SyntaxProperties.LocationLineNumber | pymg/pymg.py:216 | the digits after the location's last comma are its line number |
| SyntaxErrors.ParseTab | pymg/pymg.py:214-219 | a parsed TabError is titled so, has the fixed pointer and the stripped script line as code; it fails only on missing digits or a line out of range |
| SyntaxErrors.ParseGeneric | pymg/pymg.py:221-225 | the generic dialect fails with `NoComma` iff the text has no comma, and never with a line out of range: it does not read the script |
| SyntaxErrors.ParseIndentation | pymg/pymg.py:227-231 | a parsed IndentationError is titled so, has the fixed pointer and the stripped script line as code; it never fails for want of a comma |
| SyntaxErrors.ParseSyntaxError | pymg/pymg.py:212-231 | the title is `TabError` iff the text starts with the tab prefix and `SyntaxError` iff the generic dialect applies; the other two dialects read the code from the script |
| SyntaxErrors.DisplaySyntaxError | pymg/pymg.py:202-238 | the panel renders iff the diagnostic parses, with its title, line number and code; otherwise it fails with the parse error |
| PyText.ExtractDigitsOfNumeral | pymg/pymg.py:212 | `extract_digits` recovers a number printed between two digit-free strings |
| Session.PyfilePathValidator | pymg/pymg.py:176-182 | valid iff the path exists, is a file and ends in `.py`; otherwise not-a-Python-file or missing, carrying the path |
| SessionProperties.OutputDecisionCases | pymg/pymg.py:767-782 | output is written iff the path ends in `.txt` and nothing is there; an existing file and other paths are refused |
| Session.OutputDecision | pymg/pymg.py:767-782 | writes iff the path ends in `.txt` and nothing is there; refuses an existing file; any other path is not a text file |
| SessionProperties.OutputNeverOverwrites | pymg/pymg.py:767-782 | writing the output keeps every existing path as it was and adds at most the output file |
| Session.RecentInterpretation | pymg/pymg.py:920-933 | a replay runs iff all three files are stored, the source information is non-empty and the script still exists; it runs the stored mirror and recipe with the stored arguments; there is no information iff a file is missing |
| SessionProperties.ReplayRepeatsStoredRun | pymg/pymg.py:1031-1048 | a stored run of a valid script replays with the same mirror, arguments and recipe |
| SessionProperties.ReplayAfterOutput | pymg/pymg.py:767-782 | writing the output file does not disturb a later replay |
| SessionProperties.ReplayAfterDeletion | pymg/pymg.py:924-931 | once the script is deleted, the replay reports corrupted information |
| SessionProperties.ReplayNeedsAllThree | pymg/pymg.py:920-933 | there is nothing to replay iff one of the three files is missing; empty source information is corrupted |
| SessionProperties.ReplayedRecipeRenders | pymg/pymg.py:1031-1036 | the replayed recipe is never empty and never trips the dispatch table |

## Findings

| source | as written | input that shows it | evidently intended | confidence | as-written member | corrected member |
|---|---|---|---|---|---|---|
| pymg/pymg.py:360-373 | with line numbers, the caret padding is `len(str(lineno)) - 1` with `lineno = tb.lineno - 4`, the script index | a script frame at mirror line 13, whose panel shows line 10; or a foreign frame at line 10 to 13, whose panel shows that line: the padding is 0 but the two-digit gutter needs 1. A foreign frame at line 1 is padded for `-3` and gets a blank its one-digit gutter does not need | the padding follows the line number the panel's gutter shows (`lineno - 3` for a script frame, `lineno` otherwise, pymg/pymg.py:450-452), so the carets stay under the code | medium; not executed | Pointers.AsWrittenPadMissesGutter | Pointers.PointerClearsShownGutter |

## Left out

- Input and output are left out: reading and writing files, `pickle`, `subprocess`, the `rich` markup and layout, and `cprint`. Sections are data (`Block`), not styled text.
- `gen_search`'s network request and its "No internet connection" notice are left out. The search is modelled only as the panel printed after the report.
- Report.RenderAll: a `search` entry left in the template (a recipe with `search` twice) is modelled as failing at once with `SearchInBody`. In the code, `gen_search` first runs and prints its posts or its "No internet connection" notice, and only then does iterating its `None` result raise. That printed output is not modelled.
- `check_syntax` is left out because it runs the interpreter. The model starts from the diagnostic text it returns.
- `display_syntax_error` is modelled up to the panel's content; its printing is left out.
- `get_version`, the `--version`/`--recent` usage messages, click's parsing and the optional installation of `rich` are left out. They do not affect the report.
- Frame columns are always integers. Python 3.11 and later may give `None`, which the model leaves out. Columns count characters, not UTF-8 bytes.
- `str.isdigit` and `capitalize` are modelled for ASCII only: Unicode digits and case mapping are left out. `str.split()`, `str.strip()` and the `\S` search follow Python's full whitespace set (`PyText.IsSpace`).
- `gen_file` reads the stored source information. When that file is missing, `get_source_info` returns `[]` and the subscript raises. The model always has a path (`Context.sourcePath`).
- Session.ResolvePath: `Path(os.getcwd(), p)` is modelled as joining with `/` unless `p` is absolute. `pathlib`'s normalisation is left out.
- The file system is a map from resolved paths to files and directories. Permissions and races between the check and the write are left out.
- `interpret` itself, which runs the mirror, is left out. A replay is modelled as the run it would start.
- `read_recipe` is assumed to return what `write_recipe` stored. A recipe file edited by hand is covered only through `UnknownEntry`.
