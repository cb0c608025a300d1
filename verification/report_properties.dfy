/**
 * What the excepthook promises: the template is the sections of the recipe
 * in order, the search result comes last exactly when the recipe asks for
 * it, a recipe `main` stored never trips the dispatch table, and a report
 * that needs the script's own frame fails when the exception never passed
 * through the script.
 */
module ReportProperties {
  import opened Wrappers
  import opened Recipe
  import RecipeProperties
  import opened Frames
  import opened Pointers
  import opened HookErrors
  import opened Renderers
  import opened Report
  import RendererProperties

  /** Two renderings one after the other: the first failure, or both
      outputs in order. */
  function Then(x: Result<seq<Block>, RenderError>, y: Result<seq<Block>, RenderError>): Result<seq<Block>, RenderError> {
    if x.Failure? then x
    else if y.Failure? then y
    else Success(x.value + y.value)
  }

  lemma ThenAssociative(x: Result<seq<Block>, RenderError>, y: Result<seq<Block>, RenderError>, z: Result<seq<Block>, RenderError>)
    ensures Then(Then(x, y), z) == Then(x, Then(y, z))
  {
    if x.Success? && y.Success? && z.Success? {
      assert (x.value + y.value) + z.value == x.value + (y.value + z.value);
    }
  }

  lemma ConsAppend<T>(a: seq<T>, b: seq<T>)
    requires |a| > 0
    ensures (a + b)[0] == a[0] && (a + b)[1..] == a[1..] + b
  {
  }

  lemma ThenRegroup(whole: Result<seq<Block>, RenderError>, h: Result<seq<Block>, RenderError>, rest: Result<seq<Block>, RenderError>,
                    all: Result<seq<Block>, RenderError>, front: Result<seq<Block>, RenderError>, tail: Result<seq<Block>, RenderError>)
    requires whole == Then(h, rest) && rest == Then(front, tail) && all == Then(h, front)
    ensures whole == Then(all, tail)
  {
    ThenAssociative(h, front, tail);
  }

  lemma RenderAllCons(ctx: Context, s: seq<string>)
    requires |s| > 0
    ensures RenderAll(ctx, s) == Then(Render(ctx, s[0]), RenderAll(ctx, s[1..]))
  {
  }

  lemma RenderAllAppendEmpty(ctx: Context, b: seq<string>)
    ensures RenderAll(ctx, [] + b) == Then(RenderAll(ctx, []), RenderAll(ctx, b))
  {
    assert [] + b == b;
    if RenderAll(ctx, b).Success? {
      assert [] + RenderAll(ctx, b).value == RenderAll(ctx, b).value;
    }
  }

  /** One step of `RenderAllAppendThen`: the claim for `a` from the claim for `a[1..]`. */
  lemma RenderAllAppendStep(ctx: Context, a: seq<string>, b: seq<string>)
    requires |a| > 0
    requires RenderAll(ctx, a[1..] + b) == Then(RenderAll(ctx, a[1..]), RenderAll(ctx, b))
    ensures RenderAll(ctx, a + b) == Then(RenderAll(ctx, a), RenderAll(ctx, b))
  {
    var h := Render(ctx, a[0]);
    var front := RenderAll(ctx, a[1..]);
    assert RenderAll(ctx, a + b) == Then(h, RenderAll(ctx, a[1..] + b)) by {
      ConsAppend(a, b);
      RenderAllCons(ctx, a + b);
    }
    assert RenderAll(ctx, a) == Then(h, front) by {
      RenderAllCons(ctx, a);
    }
    ThenRegroup(RenderAll(ctx, a + b), h, RenderAll(ctx, a[1..] + b), RenderAll(ctx, a), front, RenderAll(ctx, b));
  }

  lemma {:induction false} RenderAllAppendThen(ctx: Context, a: seq<string>, b: seq<string>)
    ensures RenderAll(ctx, a + b) == Then(RenderAll(ctx, a), RenderAll(ctx, b))
    decreases |a|
  {
    if |a| == 0 {
      assert a == [];
      RenderAllAppendEmpty(ctx, b);
    } else {
      RenderAllAppendThen(ctx, a[1..], b);
      RenderAllAppendStep(ctx, a, b);
    }
  }

  /** Rendering two recipes back to back is rendering each and concatenating;
      a failure in the first half is the failure of the whole. */
  lemma RenderAllAppend(ctx: Context, a: seq<string>, b: seq<string>)
    ensures RenderAll(ctx, a + b) == Then(RenderAll(ctx, a), RenderAll(ctx, b))
    ensures RenderAll(ctx, a + b).Success? <==> RenderAll(ctx, a).Success? && RenderAll(ctx, b).Success?
    ensures RenderAll(ctx, a + b).Success? ==>
      RenderAll(ctx, a + b).value == RenderAll(ctx, a).value + RenderAll(ctx, b).value
    ensures RenderAll(ctx, a).Failure? ==> RenderAll(ctx, a + b) == RenderAll(ctx, a)
  {
    RenderAllAppendThen(ctx, a, b);
  }

  /** The template renders exactly when every entry of the recipe does. */
  lemma {:induction false} RenderAllSucceedsIff(ctx: Context, recipe: seq<string>)
    ensures RenderAll(ctx, recipe).Success? <==> forall i :: 0 <= i < |recipe| ==> Render(ctx, recipe[i]).Success?
    decreases |recipe|
  {
    if |recipe| > 0 {
      RenderAllSucceedsIff(ctx, recipe[1..]);
      if forall i :: 0 <= i < |recipe| ==> Render(ctx, recipe[i]).Success? {
        forall i | 0 <= i < |recipe[1..]|
          ensures Render(ctx, recipe[1..][i]).Success?
        {
          assert recipe[1..][i] == recipe[i + 1];
        }
      }
      if RenderAll(ctx, recipe).Success? {
        forall i | 0 <= i < |recipe|
          ensures Render(ctx, recipe[i]).Success?
        {
          if i > 0 {
            assert recipe[i] == recipe[1..][i - 1];
          }
        }
      }
    }
  }

  /** The template holds nothing but the sections of the recipe's entries, in
      recipe order: a one-entry recipe gives that section and nothing else. */
  lemma RenderSingle(ctx: Context, entry: string)
    ensures RenderAll(ctx, [entry]) == Render(ctx, entry)
  {
    assert [entry][1..] == [];
    if Render(ctx, entry).Success? {
      assert Render(ctx, entry).value + [] == Render(ctx, entry).value;
    }
  }

  /** Only the entries `search` and unknown names fail for want of a renderer. */
  lemma RenderDispatchErrors(ctx: Context, entry: string)
    ensures Render(ctx, entry) == Failure(SearchInBody) <==> entry == Search
    ensures Render(ctx, entry) == Failure(UnknownEntry(entry)) <==> entry !in RecipeEntries
    ensures entry in RecipeEntries && entry != Search && Render(ctx, entry).Failure? ==>
      !Render(ctx, entry).error.SearchInBody? && !Render(ctx, entry).error.UnknownEntry?
  {
    if entry in RecipeEntries && entry != Search {
      if entry == Scope || entry == Line || entry == Code {
      } else if entry == Trace || entry == TraceWithLocals || entry == Inner || entry == InnerWithLocals {
        var inner := entry == Inner || entry == InnerWithLocals;
        var wl := entry == TraceWithLocals || entry == InnerWithLocals;
        if Panels(ctx, 0, inner, wl).Failure? {
          NoDispatchErrorInPanels(ctx, 0, inner, wl);
        }
      }
    }
  }

  /** A panel fails only on its source line. */
  lemma PanelErrorKinds(ctx: Context, i: nat, withLocals: bool)
    requires i < |ctx.frames| && PanelAt(ctx, i, withLocals).Failure?
    ensures PanelAt(ctx, i, withLocals).error.SourceLineMissing? || PanelAt(ctx, i, withLocals).error.BlankSourceLine?
  {
  }

  /** A trace section fails only on a script frame's source line. */
  lemma {:induction false} NoDispatchErrorInPanels(ctx: Context, from: nat, innerOnly: bool, withLocals: bool)
    requires Panels(ctx, from, innerOnly, withLocals).Failure?
    ensures Panels(ctx, from, innerOnly, withLocals).error.SourceLineMissing?
         || Panels(ctx, from, innerOnly, withLocals).error.BlankSourceLine?
    decreases |ctx.frames| - from
  {
    var e := Panels(ctx, from, innerOnly, withLocals).error;
    assert from < |ctx.frames| by {
      RendererProperties.PanelsFailStep(ctx, from, innerOnly, withLocals);
    }
    if Shown(ctx, from, innerOnly) && PanelAt(ctx, from, withLocals).Failure? {
      assert e == PanelAt(ctx, from, withLocals).error by {
        RendererProperties.PanelsFailStep(ctx, from, innerOnly, withLocals);
      }
      PanelErrorKinds(ctx, from, withLocals);
    } else {
      assert Panels(ctx, from + 1, innerOnly, withLocals).Failure? && Panels(ctx, from + 1, innerOnly, withLocals).error == e by {
        RendererProperties.PanelsFailStep(ctx, from, innerOnly, withLocals);
      }
      NoDispatchErrorInPanels(ctx, from + 1, innerOnly, withLocals);
    }
  }

  /** The recipe less its first `search` keeps every other entry in its
      order, with the same number of copies, and holds no `search` when there
      was at most one. */
  lemma BodyEntries(recipe: seq<string>, x: string)
    ensures Search !in recipe ==> Body(recipe) == recipe
    ensures Search in recipe ==>
      exists k :: && 0 <= k < |recipe| && recipe[k] == Search && Search !in recipe[..k]
                  && Body(recipe) == recipe[..k] + recipe[k + 1..]
    ensures x != Search ==> (x in Body(recipe) <==> x in recipe)
    ensures multiset(recipe)[Search] <= 1 ==> Search !in Body(recipe)
    ensures multiset(recipe)[Search] >= 2 ==> Search in Body(recipe)
  {
    if Search in recipe {
      var k := FirstIndex(recipe, Search);
      assert Body(recipe) == recipe[..k] + recipe[k + 1..];
      assert multiset(Body(recipe)) == multiset(recipe) - multiset{Search};
      assert x in Body(recipe) <==> x in multiset(Body(recipe));
      assert x in recipe <==> x in multiset(recipe);
      assert Search in Body(recipe) <==> Search in multiset(Body(recipe));
    } else {
      assert Search !in multiset(recipe);
    }
  }

  /** The search result is printed exactly when the recipe asks for it, and
      always last, after the exception panel if there is one; the panel is
      printed exactly when the template has something in it. */
  lemma SearchShownLastIffRequested(ctx: Context, recipe: seq<string>)
    ensures DisplayErrorMessage(ctx, recipe).Success? <==> RenderAll(ctx, Body(recipe)).Success?
    ensures DisplayErrorMessage(ctx, recipe).Success? ==>
      var es := DisplayErrorMessage(ctx, recipe).value;
      var template := RenderAll(ctx, Body(recipe)).value;
      && (SearchPanel(ctx.message) in es <==> Search in recipe)
      && (Search in recipe ==> es[|es| - 1] == SearchPanel(ctx.message))
      && (ExceptionPanel(template) in es <==> template != [])
      && (template != [] ==> es[0] == ExceptionPanel(template))
      && |es| <= 2
  {
  }

  /** A recipe as `main` stores it from command-line flags never trips the
      dispatch table: the only errors left are the renderers' own. */
  lemma StoredRecipeHasNoDispatchError(ctx: Context, options: Options)
    requires forall i :: 0 <= i < |options| ==> options[i].0 in NonModeOptions || options[i].0 in ModeOptions
    ensures DisplayErrorMessage(ctx, StoredRecipe(options)).Failure? ==>
      var e := DisplayErrorMessage(ctx, StoredRecipe(options)).error;
      !e.SearchInBody? && !e.UnknownEntry?
  {
    var recipe := StoredRecipe(options);
    RecipeProperties.StoredRecipeIsDispatchable(options);
    assert multiset(recipe)[Search] <= 1 by {
      StoredRecipeSearchOnce(options);
    }
    var body := Body(recipe);
    forall x | x in body
      ensures x in RecipeEntries && x != Search
    {
      BodyEntries(recipe, x);
    }
    NoDispatchErrorInBody(ctx, body);
  }

  /** `search` is in a stored recipe at most once. */
  lemma StoredRecipeSearchOnce(options: Options)
    ensures multiset(StoredRecipe(options))[Search] <= 1
  {
    var kept := FilterOptions(options);
    var r := Prioritize(kept);
    RecipeProperties.SearchIsLastAndOnce(kept);
    if r == [] {
    } else if Search in r {
      assert r == r[..|r| - 1] + [Search];
      assert Search !in multiset(r[..|r| - 1]);
      assert multiset(r) == multiset(r[..|r| - 1]) + multiset{Search};
    } else {
      assert Search !in multiset(r);
    }
  }

  lemma {:induction false} NoDispatchErrorInBody(ctx: Context, body: seq<string>)
    requires forall x :: x in body ==> x in RecipeEntries && x != Search
    ensures RenderAll(ctx, body).Failure? ==>
      !RenderAll(ctx, body).error.SearchInBody? && !RenderAll(ctx, body).error.UnknownEntry?
    decreases |body|
  {
    if |body| > 0 {
      RenderDispatchErrors(ctx, body[0]);
      assert forall x :: x in body[1..] ==> x in body;
      NoDispatchErrorInBody(ctx, body[1..]);
    }
  }

  /** A recipe with `search` twice renders the second one into the template
      and so fails. */
  lemma SecondSearchFails(ctx: Context, recipe: seq<string>)
    requires multiset(recipe)[Search] >= 2
    ensures DisplayErrorMessage(ctx, recipe).Failure?
  {
    BodyEntries(recipe, Search);
    var body := Body(recipe);
    var i :| 0 <= i < |body| && body[i] == Search;
    RenderAllSucceedsIff(ctx, body);
  }

  /** When the exception never ran through the script, a recipe that asks for
      its scope, line or code makes the hook fail. */
  lemma ScriptFieldsNeedScriptFrame(ctx: Context, recipe: seq<string>, entry: string)
    requires NoTarget(ctx)
    requires entry in recipe
    requires entry == Scope || entry == Line || entry == Code
    ensures DisplayErrorMessage(ctx, recipe).Failure?
  {
    var body := Body(recipe);
    assert entry in body by { BodyEntries(recipe, entry); }
    var i :| 0 <= i < |body| && body[i] == entry;
    assert Render(ctx, body[i]).Failure?;
    assert RenderAll(ctx, body).Failure? by { RenderAllSucceedsIff(ctx, body); }
  }

  lemma {:induction false} PanelsWithoutScriptFrames(ctx: Context, from: nat, withLocals: bool)
    requires NoTarget(ctx)
    ensures Panels(ctx, from, true, withLocals) == Success([])
    decreases |ctx.frames| - from
  {
    if from < |ctx.frames| {
      PanelsWithoutScriptFrames(ctx, from + 1, withLocals);
    }
  }

  /** The default recipe on an exception raised outside the script prints
      the type and message lines alone. */
  lemma DefaultRecipeOutsideScript(ctx: Context)
    requires NoTarget(ctx)
    ensures DisplayErrorMessage(ctx, [InnerWithLocals]) ==
      Success([ExceptionPanel([TypeLine(ctx.kind), MessageLine(ctx.message)])])
  {
    PanelsWithoutScriptFrames(ctx, 0, true);
    RenderSingle(ctx, InnerWithLocals);
    assert Search !in [InnerWithLocals];
    assert Body([InnerWithLocals]) == [InnerWithLocals];
    assert Render(ctx, InnerWithLocals) == GenInnerWithLocals(ctx);
    assert Panels(ctx, 0, true, true).value == [];
    assert Spaced([]) == [];
    assert Header(ctx) + Spaced([]) == Header(ctx);
    assert GenInnerWithLocals(ctx) == Success(Header(ctx));
    var panel := [ExceptionPanel([TypeLine(ctx.kind), MessageLine(ctx.message)])];
    assert panel + [] == panel;
  }

  /** A recipe of `search` alone prints no exception panel, only the search. */
  lemma SearchOnlyPrintsSearch(ctx: Context)
    ensures DisplayErrorMessage(ctx, [Search]) == Success([SearchPanel(ctx.message)])
  {
    assert Search in [Search];
    assert RemoveFirst([Search], Search) == [];
    assert Body([Search]) == [];
    assert RenderAll(ctx, []) == Success([]);
    assert [] + [SearchPanel(ctx.message)] == [SearchPanel(ctx.message)];
  }

  /** `-t -m` on any exception: one panel with the type line, then the message line. */
  lemma TypeAndMessageReport(ctx: Context)
    ensures DisplayErrorMessage(ctx, [Type, Message]) ==
      Success([ExceptionPanel([TypeLine(ctx.kind), MessageLine(ctx.message)])])
  {
    RenderAllAppend(ctx, [Type], [Message]);
    RenderSingle(ctx, Type);
    RenderSingle(ctx, Message);
    assert [Type] + [Message] == [Type, Message];
    assert Search !in [Type, Message];
    assert Body([Type, Message]) == [Type, Message];
    assert Render(ctx, Type) == Success([TypeLine(ctx.kind)]);
    assert Render(ctx, Message) == Success([MessageLine(ctx.message)]);
    assert [TypeLine(ctx.kind)] + [MessageLine(ctx.message)] == [TypeLine(ctx.kind), MessageLine(ctx.message)];
    var panel := [ExceptionPanel([TypeLine(ctx.kind), MessageLine(ctx.message)])];
    assert panel + [] == panel;
  }

  /** `-f` shows the original script's path, never the mirror file's, even
      when the exception was raised in library code. */
  lemma FileReport(ctx: Context)
    ensures DisplayErrorMessage(ctx, [File]) == Success([ExceptionPanel([FileLine(ctx.sourcePath)])])
  {
    RenderSingle(ctx, File);
    assert Search !in [File];
    assert Body([File]) == [File];
    assert Render(ctx, File) == Success([FileLine(ctx.sourcePath)]);
    var panel := [ExceptionPanel([FileLine(ctx.sourcePath)])];
    assert panel + [] == panel;
  }
}
