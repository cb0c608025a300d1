/**
 * The ways a renderer can raise inside the excepthook.  Python then abandons
 * the template and reports the hook's own failure.
 */
module HookErrors {

  /** Why rendering raised inside the excepthook. */
  datatype RenderError =
    | NoTargetFrame                  // the backward search left its variable unbound
    | SourceLineMissing(index: int)  // `read_source(...)[lineno]` raised IndexError
    | BlankSourceLine(index: int)    // `re.search('\S', ...)` returned None
    | SearchInBody                   // a second 'search' entry: iterating gen_search's None
    | UnknownEntry(entry: string)    // the dispatch dict has no such key
}
