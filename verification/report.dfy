/**
 * `display_error_message`, the excepthook: it reads the stored recipe, sets
 * `search` aside, renders every other entry through its dispatch table into
 * one template, prints the template in an "Exception" panel when it is not
 * empty, and runs the search last.
 */
module Report {
  import opened Wrappers
  import opened Recipe
  import opened Frames
  import opened Pointers
  import opened HookErrors
  import opened Renderers

  /** What the hook prints, in order. */
  datatype Emission =
    | ExceptionPanel(blocks: seq<Block>)  // the red "Exception" panel
    | SearchPanel(query: string)          // `gen_search` for the exception message

  /** `funcs[entry](...)`: the renderer a recipe entry names.  `search` maps to
      `gen_search`, which returns None, so iterating it raises; a name with no
      entry raises KeyError. */
  function Render(ctx: Context, entry: string): (r: Result<seq<Block>, RenderError>)
    ensures r == Failure(SearchInBody) <==> entry == Search
    ensures entry !in RecipeEntries ==> r == Failure(UnknownEntry(entry))
    ensures entry == Type || entry == Message || entry == File || entry == Locals ==> r.Success?
  {
    if entry == Type then Success(GenType(ctx))
    else if entry == Message then Success(GenMessage(ctx))
    else if entry == File then Success(GenFile(ctx))
    else if entry == Scope then GenScope(ctx)
    else if entry == Line then GenLine(ctx)
    else if entry == Code then GenCode(ctx)
    else if entry == Trace then GenTrace(ctx)
    else if entry == TraceWithLocals then GenTraceWithLocals(ctx)
    else if entry == Inner then GenInner(ctx)
    else if entry == InnerWithLocals then GenInnerWithLocals(ctx)
    else if entry == Locals then Success(GenLocals(ctx))
    else if entry == Search then Failure(SearchInBody)
    else Failure(UnknownEntry(entry))
  }

  /** The template comprehension: every entry's blocks, in recipe order; the
      first entry that raises aborts it. */
  function RenderAll(ctx: Context, recipe: seq<string>): (r: Result<seq<Block>, RenderError>)
    ensures r.Failure? ==> exists i ::
      && 0 <= i < |recipe|
      && Render(ctx, recipe[i]) == Failure(r.error)
      && forall j :: 0 <= j < i ==> Render(ctx, recipe[j]).Success?
    decreases |recipe|
  {
    if |recipe| == 0 then Success([])
    else
      var head :- Render(ctx, recipe[0]);
      var rest :- RenderAll(ctx, recipe[1..]);
      Success(head + rest)
  }

  /** `list.index(x)`: the position of the first `x` in `s`. */
  function FirstIndex<T(==)>(s: seq<T>, x: T): (k: nat)
    requires x in s
    ensures k < |s| && s[k] == x && x !in s[..k]
  {
    if s[0] == x then 0
    else
      assert x in s[1..] by { assert s == [s[0]] + s[1..]; }
      var k := FirstIndex(s[1..], x);
      assert s[..k + 1] == [s[0]] + s[1..][..k];
      k + 1
  }

  /** Dropping the entry at `k` takes one copy of it out of the multiset. */
  lemma DropAtMultiset<T>(s: seq<T>, k: nat)
    requires k < |s|
    ensures multiset(s[..k] + s[k + 1..]) == multiset(s) - multiset{s[k]}
  {
    assert s == s[..k] + [s[k]] + s[k + 1..];
  }

  /** Dropping position `k + 1` of `s` is dropping position `k` of its tail. */
  lemma DropBehindHead<T>(s: seq<T>, k: nat)
    requires k + 1 < |s|
    ensures [s[0]] + (s[1..][..k] + s[1..][k + 1..]) == s[..k + 1] + s[k + 2..]
  {
    assert s[..k + 1] == [s[0]] + s[1..][..k];
    assert s[k + 2..] == s[1..][k + 1..];
  }

  /** `list.remove(x)`: drops the first occurrence, keeping every other entry
      in its place; `x` must be present. */
  function RemoveFirst<T(==)>(s: seq<T>, x: T): (r: seq<T>)
    requires x in s
    ensures r == s[..FirstIndex(s, x)] + s[FirstIndex(s, x) + 1..]
    ensures |r| == |s| - 1
    ensures multiset(r) == multiset(s) - multiset{x}
  {
    DropAtMultiset(s, FirstIndex(s, x));
    if s[0] == x then
      s[1..]
    else
      assert x in s[1..] by { assert s == [s[0]] + s[1..]; }
      var rest := RemoveFirst(s[1..], x);
      DropBehindHead(s, FirstIndex(s[1..], x));
      [s[0]] + rest
  }

  /** The recipe entries that go into the template: the recipe less its
      first `search`. */
  function Body(recipe: seq<string>): seq<string> {
    if Search in recipe then RemoveFirst(recipe, Search) else recipe
  }

  /** `display_error_message`: what it prints, or the error it raises while
      building the template (nothing is printed then). */
  function DisplayErrorMessage(ctx: Context, recipe: seq<string>): (r: Result<seq<Emission>, RenderError>)
    ensures r.Success? <==> RenderAll(ctx, Body(recipe)).Success?
    ensures r.Failure? ==> r.error == RenderAll(ctx, Body(recipe)).error
    ensures r.Success? ==> |r.value| <= 2
    ensures r.Success? ==> (|r.value| > 0 && r.value[|r.value| - 1] == SearchPanel(ctx.message) <==> Search in recipe)
  {
    var template :- RenderAll(ctx, Body(recipe));
    Success(
      (if template == [] then [] else [ExceptionPanel(template)])
      + (if Search in recipe then [SearchPanel(ctx.message)] else []))
  }
}
