/**
 * What the recipe builder promises: where `search` goes, how `locals` merges
 * into trace and inner, which entries win over the per-field modes, and that
 * the stored recipe is never empty and only names modes the excepthook knows.
 */
module RecipeProperties {
  import opened Recipe

  /** `available` with every `search` removed, order kept. */
  function WithoutSearch(available: seq<string>): seq<string>
    decreases |available|
  {
    if |available| == 0 then []
    else
      var o := available[|available| - 1];
      WithoutSearch(available[..|available| - 1]) + (if o == Search then [] else [o])
  }

  /** The `trace` and `inner` entries of `available`, order kept. */
  function TraceAndInner(available: seq<string>): seq<string>
    decreases |available|
  {
    if |available| == 0 then []
    else
      var o := available[|available| - 1];
      TraceAndInner(available[..|available| - 1]) + (if o == Trace || o == Inner then [o] else [])
  }

  /** What a recipe holds before a trailing `search`. */
  function BeforeSearch(recipe: seq<string>): seq<string> {
    if |recipe| > 0 && recipe[|recipe| - 1] == Search then recipe[..|recipe| - 1] else recipe
  }

  // ------------------------------------------------------------ order kept

  /** `idx` picks the entries of `kept` out of `s` at increasing positions. */
  ghost predicate PicksFrom<T>(kept: seq<T>, s: seq<T>, idx: seq<nat>) {
    && |idx| == |kept|
    && (forall k :: 0 <= k < |idx| ==> idx[k] < |s| && s[idx[k]] == kept[k])
    && (forall k, l :: 0 <= k < l < |idx| ==> idx[k] < idx[l])
  }

  /** `kept` is `s` with some entries left out and none reordered. */
  ghost predicate IsSubsequence<T>(kept: seq<T>, s: seq<T>) {
    exists idx :: PicksFrom(kept, s, idx)
  }

  /** A subsequence of the tail is one of the whole, with or without the head. */
  lemma SubsequenceCons<T>(kept: seq<T>, s: seq<T>)
    requires |s| > 0 && IsSubsequence(kept, s[1..])
    ensures IsSubsequence([s[0]] + kept, s) && IsSubsequence(kept, s)
  {
    var idx: seq<nat> :| PicksFrom(kept, s[1..], idx);
    var shifted := seq(|idx|, k requires 0 <= k < |idx| => idx[k] + 1);
    assert PicksFrom(kept, s, shifted);
    assert PicksFrom([s[0]] + kept, s, [0] + shifted);
  }

  /** A subsequence of all but the last entry is one of the whole, with or
      without that last entry. */
  lemma SubsequenceSnoc<T>(kept: seq<T>, s: seq<T>)
    requires |s| > 0 && IsSubsequence(kept, s[..|s| - 1])
    ensures IsSubsequence(kept + [s[|s| - 1]], s) && IsSubsequence(kept, s)
  {
    var idx: seq<nat> :| PicksFrom(kept, s[..|s| - 1], idx);
    assert PicksFrom(kept, s, idx);
    assert PicksFrom(kept + [s[|s| - 1]], s, idx + [|s| - 1]);
  }

  /** `main`'s filter keeps the mode options in the order they were given. */
  lemma {:induction false} FilterOptionsKeepsOrder(options: Options)
    ensures IsSubsequence(FilterOptions(options), options)
    decreases |options|
  {
    if |options| == 0 {
      assert PicksFrom([], options, []);
    } else {
      var rest := FilterOptions(options[1..]);
      FilterOptionsKeepsOrder(options[1..]);
      SubsequenceCons(rest, options);
      if options[0].0 in NonModeOptions {
        assert FilterOptions(options) == rest;
      } else {
        assert FilterOptions(options) == [options[0]] + rest;
      }
    }
  }

  /** The available names come in the order of their options. */
  lemma {:induction false} AvailableKeepsOrder(options: Options)
    ensures IsSubsequence(Available(options), Names(options))
    decreases |options|
  {
    if |options| == 0 {
      assert PicksFrom([], Names(options), []);
    } else {
      var init := options[..|options| - 1];
      AvailableKeepsOrder(init);
      assert Names(init) == Names(options)[..|options| - 1];
      SubsequenceSnoc(Available(init), Names(options));
    }
  }

  // ------------------------------------------------------ the loop's pieces

  lemma {:induction false} PrioritizedMembers(available: seq<string>, hasLocals: bool, x: string)
    ensures x in Prioritized(available, hasLocals) <==>
      || (x == TraceWithLocals && hasLocals && Trace in available)
      || (x == InnerWithLocals && hasLocals && Inner in available)
      || (x == Trace && !hasLocals && Trace in available)
      || (x == Inner && !hasLocals && Inner in available)
    decreases |available|
  {
    if |available| > 0 {
      var init := available[..|available| - 1];
      var o := available[|available| - 1];
      assert available == init + [o];
      PrioritizedMembers(init, hasLocals, x);
    }
  }

  lemma {:induction false} DraftMembers(available: seq<string>, x: string)
    ensures x in Draft(available) <==> x in available && x != Trace && x != Inner && x != Search
    decreases |available|
  {
    if |available| > 0 {
      var init := available[..|available| - 1];
      var o := available[|available| - 1];
      assert available == init + [o];
      DraftMembers(init, x);
    }
  }

  lemma {:induction false} PrioritizedEmpty(available: seq<string>, hasLocals: bool)
    ensures Prioritized(available, hasLocals) == [] <==> Trace !in available && Inner !in available
    decreases |available|
  {
    if |available| > 0 {
      var init := available[..|available| - 1];
      assert available == init + [available[|available| - 1]];
      PrioritizedEmpty(init, hasLocals);
    }
  }

  lemma {:induction false} DraftEmpty(available: seq<string>)
    ensures Draft(available) == [] <==>
      forall i :: 0 <= i < |available| ==> available[i] == Trace || available[i] == Inner || available[i] == Search
    decreases |available|
  {
    if |available| > 0 {
      var init := available[..|available| - 1];
      assert available == init + [available[|available| - 1]];
      DraftEmpty(init);
    }
  }

  lemma {:induction false} DraftWithoutTraceOrInner(available: seq<string>)
    requires Trace !in available && Inner !in available
    ensures Draft(available) == WithoutSearch(available)
    decreases |available|
  {
    if |available| > 0 {
      var init := available[..|available| - 1];
      assert available == init + [available[|available| - 1]];
      DraftWithoutTraceOrInner(init);
    }
  }

  lemma {:induction false} PrioritizedWithoutLocals(available: seq<string>)
    ensures Prioritized(available, false) == TraceAndInner(available)
    decreases |available|
  {
    if |available| > 0 {
      PrioritizedWithoutLocals(available[..|available| - 1]);
    }
  }

  lemma {:induction false} DraftDistinct(available: seq<string>)
    requires Distinct(available)
    ensures Distinct(Draft(available))
    decreases |available|
  {
    if |available| > 0 {
      var init := available[..|available| - 1];
      var o := available[|available| - 1];
      assert available == init + [o];
      assert Distinct(init);
      DraftDistinct(init);
      DraftMembers(init, o);
    }
  }

  lemma {:induction false} PrioritizedDistinct(available: seq<string>, hasLocals: bool)
    requires Distinct(available)
    ensures Distinct(Prioritized(available, hasLocals))
    decreases |available|
  {
    if |available| > 0 {
      var init := available[..|available| - 1];
      var o := available[|available| - 1];
      assert available == init + [o];
      assert Distinct(init);
      PrioritizedDistinct(init, hasLocals);
      var r := Resolve(o, hasLocals);
      if |r| > 0 {
        PrioritizedMembers(init, hasLocals, r[0]);
      }
    }
  }

  lemma {:induction false} AvailableDistinct(options: Options)
    requires Distinct(Names(options))
    ensures Distinct(Available(options))
    decreases |options|
  {
    if |options| > 0 {
      var init := options[..|options| - 1];
      var last := options[|options| - 1];
      assert Names(init) == Names(options)[..|options| - 1];
      AvailableDistinct(init);
    }
  }

  // --------------------------------------------------------------- theorems

  /** `search` is in the recipe exactly when it was requested, and then once, at the end. */
  lemma SearchIsLastAndOnce(options: Options)
    ensures var r := Prioritize(options);
      && (Search in r <==> (Search, true) in options)
      && ((Search, true) in options ==> r[|r| - 1] == Search && Search !in r[..|r| - 1])
  {
    var available := Available(options);
    var hasLocals := Locals in available;
    PrioritizedMembers(available, hasLocals, Search);
    DraftMembers(available, Search);
    var body := if Prioritized(available, hasLocals) == [] then Draft(available) else Prioritized(available, hasLocals);
    assert Search !in body;
    if Search in available {
      assert Prioritize(options)[..|Prioritize(options)| - 1] == body;
    }
  }

  /** `trace` with `locals` gives `trace_with_locals` alone: neither `trace`
      nor `locals` survives. */
  lemma TraceMergesLocals(options: Options)
    requires (Trace, true) in options && (Locals, true) in options
    ensures var r := Prioritize(options);
      TraceWithLocals in r && Trace !in r && Locals !in r
  {
    var available := Available(options);
    PrioritizedMembers(available, true, TraceWithLocals);
    PrioritizedMembers(available, true, Trace);
    PrioritizedMembers(available, true, Locals);
  }

  /** `inner` with `locals` gives `inner_with_locals` alone. */
  lemma InnerMergesLocals(options: Options)
    requires (Inner, true) in options && (Locals, true) in options
    ensures var r := Prioritize(options);
      InnerWithLocals in r && Inner !in r && Locals !in r
  {
    var available := Available(options);
    PrioritizedMembers(available, true, InnerWithLocals);
    PrioritizedMembers(available, true, Inner);
    PrioritizedMembers(available, true, Locals);
  }

  /** Without `locals`, the requested `trace` and `inner` appear as they are,
      in the order they were given, and nothing else precedes `search`. */
  lemma PlainTraceAndInnerInOrder(options: Options)
    requires (Locals, true) !in options
    requires (Trace, true) in options || (Inner, true) in options
    ensures BeforeSearch(Prioritize(options)) == TraceAndInner(Available(options))
    ensures var r := Prioritize(options);
      && (Trace in r <==> (Trace, true) in options)
      && (Inner in r <==> (Inner, true) in options)
      && TraceWithLocals !in r && InnerWithLocals !in r
  {
    var available := Available(options);
    var r := Prioritize(options);
    PrioritizedWithoutLocals(available);
    PrioritizedMembers(available, false, Trace);
    PrioritizedMembers(available, false, Inner);
    PrioritizedMembers(available, false, TraceWithLocals);
    PrioritizedMembers(available, false, InnerWithLocals);
    PrioritizedMembers(available, false, Search);
    var body := Prioritized(available, false);
    assert body != [];
    assert Search !in body;
    if Search in available {
      assert r == body + [Search];
      assert r[..|r| - 1] == body;
    } else {
      assert r == body;
      if |body| > 0 {
        assert body[|body| - 1] in body;
      }
    }
  }

  /** With neither `trace` nor `inner`, the body is every other requested
      option (including `locals`) in the order given. */
  lemma FieldsWhenNoTraceOrInner(options: Options)
    requires (Trace, true) !in options && (Inner, true) !in options
    ensures Prioritize(options) ==
      WithoutSearch(Available(options)) + (if (Search, true) in options then [Search] else [])
  {
    var available := Available(options);
    PrioritizedEmpty(available, Locals in available);
    DraftWithoutTraceOrInner(available);
  }

  /** Once `trace` or `inner` is requested, every per-field mode is dropped. */
  lemma TraceOrInnerDropsFields(options: Options)
    requires (Trace, true) in options || (Inner, true) in options
    ensures forall x :: x in Prioritize(options) ==>
      x == Trace || x == TraceWithLocals || x == Inner || x == InnerWithLocals || x == Search
  {
    var available := Available(options);
    var hasLocals := Locals in available;
    if hasLocals {
      PrioritizedMembers(available, hasLocals, if Trace in available then TraceWithLocals else InnerWithLocals);
    } else {
      PrioritizedMembers(available, hasLocals, if Trace in available then Trace else Inner);
    }
    forall x | x in Prioritize(options)
      ensures x == Trace || x == TraceWithLocals || x == Inner || x == InnerWithLocals || x == Search
    {
      PrioritizedMembers(available, hasLocals, x);
    }
  }

  /** The two variants of trace (and of inner) never appear together. */
  lemma VariantsExclusive(options: Options)
    ensures var r := Prioritize(options);
      && !(Trace in r && TraceWithLocals in r)
      && !(Inner in r && InnerWithLocals in r)
  {
    var available := Available(options);
    var hasLocals := Locals in available;
    PrioritizedMembers(available, hasLocals, Trace);
    PrioritizedMembers(available, hasLocals, TraceWithLocals);
    PrioritizedMembers(available, hasLocals, Inner);
    PrioritizedMembers(available, hasLocals, InnerWithLocals);
    DraftMembers(available, Trace);
    DraftMembers(available, TraceWithLocals);
    DraftMembers(available, Inner);
    DraftMembers(available, InnerWithLocals);
    assert Trace != Search && Inner != Search;
  }

  /** Distinct option names give a recipe without duplicates. */
  lemma RecipeDistinct(options: Options)
    requires Distinct(Names(options))
    ensures Distinct(Prioritize(options))
  {
    var available := Available(options);
    var hasLocals := Locals in available;
    AvailableDistinct(options);
    PrioritizedDistinct(available, hasLocals);
    DraftDistinct(available);
    PrioritizedMembers(available, hasLocals, Search);
    DraftMembers(available, Search);
  }

  /** The builder returns nothing exactly when no option was set. */
  lemma EmptyRecipeIffNothingSet(options: Options)
    ensures Prioritize(options) == [] <==> forall x :: (x, true) !in options
  {
    var available := Available(options);
    var hasLocals := Locals in available;
    PrioritizedEmpty(available, hasLocals);
    DraftEmpty(available);
    if |available| > 0 {
      assert available[0] in available;
    }
  }

  /** A request for `search` alone stores `["search"]` with no default body. */
  lemma SearchOnlyRecipe(options: Options)
    requires (Search, true) in FilterOptions(options)
    requires forall x :: (x, true) in FilterOptions(options) ==> x == Search
    ensures StoredRecipe(options) == [Search]
  {
    var available := Available(FilterOptions(options));
    var hasLocals := Locals in available;
    PrioritizedEmpty(available, hasLocals);
    DraftEmpty(available);
    assert forall i :: 0 <= i < |available| ==> available[i] in available;
  }

  /** The stored recipe is never empty; it is the default exactly when no
      mode option was set. */
  lemma StoredRecipeDefault(options: Options)
    ensures StoredRecipe(options) != []
    ensures (forall x :: (x, true) !in FilterOptions(options)) ==> StoredRecipe(options) == [InnerWithLocals]
    ensures (exists x :: (x, true) in FilterOptions(options)) ==> StoredRecipe(options) == Prioritize(FilterOptions(options))
  {
    EmptyRecipeIffNothingSet(FilterOptions(options));
  }

  /** Options named as on the command line only ever yield entries the
      excepthook's dispatch table knows. */
  lemma StoredRecipeIsDispatchable(options: Options)
    requires forall i :: 0 <= i < |options| ==> options[i].0 in NonModeOptions || options[i].0 in ModeOptions
    ensures forall x :: x in StoredRecipe(options) ==> x in RecipeEntries
  {
    var kept := FilterOptions(options);
    var available := Available(kept);
    var hasLocals := Locals in available;
    forall x | x in StoredRecipe(options)
      ensures x in RecipeEntries
    {
      PrioritizedMembers(available, hasLocals, x);
      DraftMembers(available, x);
      if x in Draft(available) {
        assert (x, true) in kept;
        assert (x, true) in options && x !in NonModeOptions;
        var k :| 0 <= k < |options| && options[k] == (x, true);
        assert x in ModeOptions;
      }
    }
  }
}
