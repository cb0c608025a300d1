/**
 * The recipe: the ordered list of report modes that the excepthook later
 * renders.  `main` keeps only the mode options of the command line, hands
 * them to `prioritizing_options`, and stores `["inner_with_locals"]` when that
 * yields nothing.
 *
 * Options are the `(name, value)` items of the dict click passes to `main`;
 * the item order is the order the caller iterates them in.
 */
module Recipe {

  type Options = seq<(string, bool)>

  const Type := "type"
  const Message := "message"
  const File := "file"
  const Scope := "scope"
  const Line := "line"
  const Code := "code"
  const Trace := "trace"
  const TraceWithLocals := "trace_with_locals"
  const Inner := "inner"
  const InnerWithLocals := "inner_with_locals"
  const Locals := "locals"
  const Search := "search"

  /** The command-line options that are not report modes; `main` drops them. */
  const NonModeOptions: seq<string> := ["python_file", "syntax", "output", "version", "recent"]

  /** The mode flags `main` accepts on the command line. */
  const ModeOptions: seq<string> := [Type, Message, File, Scope, Line, Code, Trace, Inner, Locals, Search]

  /** Every entry the excepthook knows how to render (the keys of its dispatch table). */
  const RecipeEntries: seq<string> :=
    [Type, Message, File, Scope, Line, Code, Trace, TraceWithLocals, Inner, InnerWithLocals, Locals, Search]

  predicate Distinct<T(==)>(s: seq<T>) {
    forall i, j :: 0 <= i < j < |s| ==> s[i] != s[j]
  }

  function Names(options: Options): (names: seq<string>)
    ensures |names| == |options|
    ensures forall i :: 0 <= i < |options| ==> names[i] == options[i].0
  {
    seq(|options|, i requires 0 <= i < |options| => options[i].0)
  }

  /** The option dict `main` builds before prioritizing: every item whose name
      is not one of the non-mode options, in the same order. */
  function FilterOptions(options: Options): (kept: Options)
    ensures forall i :: 0 <= i < |kept| ==> kept[i] in options && kept[i].0 !in NonModeOptions
    ensures forall i :: 0 <= i < |options| && options[i].0 !in NonModeOptions ==> options[i] in kept
  {
    if |options| == 0 then []
    else (if options[0].0 in NonModeOptions then [] else [options[0]]) + FilterOptions(options[1..])
  }

  /** The names whose value is true, in order (`available_options`). */
  function Available(options: Options): (names: seq<string>)
    ensures forall x :: x in names <==> (x, true) in options
    decreases |options|
  {
    if |options| == 0 then []
    else
      var rest := Available(options[..|options| - 1]);
      var last := options[|options| - 1];
      assert options == options[..|options| - 1] + [last];
      if last.1 then rest + [last.0] else rest
  }

  /** What one available option contributes to `prioritized_options`.  The
      removal checks in the source compare function objects against a list of
      strings, so they never fire and every branch simply appends. */
  function Resolve(option: string, hasLocals: bool): seq<string> {
    if option == Trace then (if hasLocals then [TraceWithLocals] else [Trace])
    else if option == Inner then (if hasLocals then [InnerWithLocals] else [Inner])
    else []
  }

  /** `prioritized_options` after the loop. */
  function Prioritized(available: seq<string>, hasLocals: bool): seq<string>
    decreases |available|
  {
    if |available| == 0 then []
    else Prioritized(available[..|available| - 1], hasLocals) + Resolve(available[|available| - 1], hasLocals)
  }

  /** `draft_options` after the loop: every option but trace, inner and search. */
  function Draft(available: seq<string>): seq<string>
    decreases |available|
  {
    if |available| == 0 then []
    else
      var o := available[|available| - 1];
      Draft(available[..|available| - 1]) + DraftEntry(o)
  }

  /** What one available option contributes to `draft_options`. */
  function DraftEntry(o: string): seq<string> {
    if o == Trace || o == Inner || o == Search then [] else [o]
  }

  /** One more option of the loop extends both lists by that option's share. */
  lemma PrefixStep(available: seq<string>, i: nat, hasLocals: bool)
    requires i < |available|
    ensures Prioritized(available[..i + 1], hasLocals) == Prioritized(available[..i], hasLocals) + Resolve(available[i], hasLocals)
    ensures Draft(available[..i + 1]) == Draft(available[..i]) + DraftEntry(available[i])
  {
    assert available[..i + 1][..i] == available[..i];
  }

  /** The recipe `prioritizing_options` returns: the trace/inner entries if
      any, otherwise the per-field options, then `search` last if requested. */
  function Prioritize(options: Options): seq<string> {
    var available := Available(options);
    var prioritized := Prioritized(available, Locals in available);
    var body := if prioritized == [] then Draft(available) else prioritized;
    body + (if Search in available then [Search] else [])
  }

  /** The loop of `prioritizing_options` over the available options. */
  method SortOptions(available: seq<string>, hasLocals: bool) returns (prioritized: seq<string>, draft: seq<string>)
    ensures prioritized == Prioritized(available, hasLocals)
    ensures draft == Draft(available)
  {
    prioritized := [];
    draft := [];
    var i := 0;
    while i < |available|
      invariant 0 <= i <= |available|
      invariant prioritized == Prioritized(available[..i], hasLocals)
      invariant draft == Draft(available[..i])
    {
      var option := available[i];
      assert Prioritized(available[..i + 1], hasLocals) == prioritized + Resolve(option, hasLocals) &&
        Draft(available[..i + 1]) == draft + DraftEntry(option) by {
        PrefixStep(available, i, hasLocals);
      }
      if option == Trace && hasLocals {
        prioritized := prioritized + [TraceWithLocals];
      } else if option == Inner && hasLocals {
        prioritized := prioritized + [InnerWithLocals];
      } else if option == Trace {
        prioritized := prioritized + [option];
      } else if option == Inner {
        prioritized := prioritized + [option];
      } else if option != Search {
        draft := draft + [option];
      }
      i := i + 1;
    }
    assert available[..i] == available;
  }

  /** `prioritizing_options`, statement by statement. */
  method PrioritizingOptions(options: Options) returns (recipe: seq<string>)
    ensures recipe == Prioritize(options)
  {
    var available := Available(options);
    var hasLocals := Locals in available;
    var prioritized, draft := SortOptions(available, hasLocals);
    if prioritized == [] {
      prioritized := prioritized + draft;
    }
    if Search in available {
      prioritized := prioritized + [Search];
    }
    recipe := prioritized;
  }

  /** What `main` writes to the recipe file for the options it was given. */
  function StoredRecipe(options: Options): (r: seq<string>)
    ensures r != []
    ensures r != [InnerWithLocals] ==> r == Prioritize(FilterOptions(options))
  {
    var recipe := Prioritize(FilterOptions(options));
    if recipe == [] then [InnerWithLocals] else recipe
  }
}
