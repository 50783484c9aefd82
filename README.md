# Pinboard menu: search, move dispatch and remove-from-pinboard

This project models the logic inside AFFiNE's `PinboardMenu` React component, the menu
that lets a user move the open page ("current meta") under another page of the workspace
or detach it from the page it is pinned under. Three pieces of that component carry logic:

- **Search filter.** The menu is searching exactly when the query is non-empty. The result
  list is the candidate pages, in their original order, that are not in the trash and whose
  title contains the query as a case-sensitive substring (`search.dfy`).
- **Move dispatch.** Clicking a destination calls the move handler with a containment drop
  intent. Then it calls the optional `onPinboardClick` observer. Then it shows one toast
  `Moved "<current title>" to "<target title>"`, where the target title is looked up and may
  be `undefined` (`dispatch.dfy`).
- **Remove from pinboard.** The handler finds the first page whose child list holds the
  current page's id; with no such page it does nothing. Otherwise it copies that page's
  child list, removes the first occurrence of the id with `findIndex` and `splice`, and makes
  one `setPageMeta` call with the new list (`removal.dfy`).

`js_builtins.dfy` states the JavaScript library calls these rely on: `find`, `findIndex`,
`String.prototype.includes` and `splice(start, 1)`, including how `splice` treats a negative
start. `pinboard.dfy` holds the page record and the collaborator events. `pinboard_menu.dfy`
is the component as a class. Its props are constant fields. The query is its local state.
Every call to a collaborator is appended to its `trace` field, so the order and arguments of
those calls can be stated.

Two consequences of the code are worth stating plainly:
- The search filter does not exclude the current page; any exclusion is up to the caller's candidate list.
- `onPinboardClick` is called on every click when it is present, and the handler does not wait to learn whether the move worked.

## Model

| member | source | states |
|---|---|---|
| JsBuiltins.FindIndex | apps/web/src/components/affine/pinboard/pinboard-menu/index.tsx:121-123 | `findIndex` is -1 exactly when no element satisfies the predicate; otherwise it is the position of the first element that does |
| JsBuiltins.Find | apps/web/src/components/affine/pinboard/pinboard-menu/index.tsx:55 | `find` is undefined exactly when no element satisfies the predicate; otherwise it is an element at a first matching position |
| JsBuiltins.Includes | apps/web/src/components/affine/pinboard/pinboard-menu/index.tsx:45 | `includes` holds exactly when the query occurs as a contiguous substring at some position of the title |
| JsBuiltins.IncludesEmpty | apps/web/src/components/affine/pinboard/pinboard-menu/index.tsx:42-46 | the empty query is included in every title |
| JsBuiltins.IncludesInfix | apps/web/src/components/affine/pinboard/pinboard-menu/index.tsx:63 | a string interpolated into a template is included in the resulting text |
| JsBuiltins.SpliceStart | apps/web/src/components/affine/pinboard/pinboard-menu/index.tsx:124 | `splice` starts at the given index when it lies within the array, counts a negative index back from the end, and clamps the position to the array's bounds |
| JsBuiltins.SpliceOne | apps/web/src/components/affine/pinboard/pinboard-menu/index.tsx:124 | `splice(start, 1)` drops the element at the clamped start, if there is one; earlier elements stay and later ones move down by one |
| Search.SearchResult | apps/web/src/components/affine/pinboard/pinboard-menu/index.tsx:44-46 | every result is a candidate that is not trashed and whose title includes the query; every such candidate is a result; the list is no longer than the candidates |
| Search.SearchResultIsOrderedSubsequence | apps/web/src/components/affine/pinboard/pinboard-menu/index.tsx:44-46 | the results are the candidates at the matching positions, in strictly increasing position order, and every matching position is used |
| Search.MatchIndicesIncreasing | apps/web/src/components/affine/pinboard/pinboard-menu/index.tsx:44-46 | the matching positions are positions of the candidate list, in strictly increasing order |
| Search.MatchIndicesExact | apps/web/src/components/affine/pinboard/pinboard-menu/index.tsx:44-46 | a position is listed exactly when the candidate there is not trashed and its title includes the query |
| Search.SearchResultAtMatchIndices | apps/web/src/components/affine/pinboard/pinboard-menu/index.tsx:44-46 | the k-th search result is the candidate at the k-th matching position |
| Search.SearchResultAppend | apps/web/src/components/affine/pinboard/pinboard-menu/index.tsx:44-46 | filtering a concatenation is the concatenation of the filtered parts |
| Search.EmptyQueryKeepsLivePages | apps/web/src/components/affine/pinboard/pinboard-menu/index.tsx:42-46 | with the empty query the filter keeps exactly the pages that are not in the trash |
| Search.Content | apps/web/src/components/affine/pinboard/pinboard-menu/index.tsx:99-109 | the flat result list is shown if and only if the query is non-empty, even when it has no results, and it is the filter's result, so the ordered-subsequence lemmas apply to what is shown; the suggestion tree is shown otherwise |
| Search.SearchScenario | apps/web/src/components/affine/pinboard/pinboard-menu/index.tsx:44-46 | the query "Be" over "Alpha" and "Beta" lists only "Beta" |
| Dispatch.TargetTitle | apps/web/src/components/affine/pinboard/pinboard-menu/index.tsx:55 | the target title is undefined exactly when no page has the id; otherwise it is the title of the first page with that id |
| Dispatch.MoveMessageNamesBothPages | apps/web/src/components/affine/pinboard/pinboard-menu/index.tsx:63 | the toast text contains the current title, and the target title or "undefined" when the target is missing |
| Dispatch.TemplateText | apps/web/src/components/affine/pinboard/pinboard-menu/index.tsx:63 | a template literal prints a found title as itself and a missing one as the word "undefined" |
| Dispatch.MoveMessage | apps/web/src/components/affine/pinboard/pinboard-menu/index.tsx:63 | the toast text is `Moved "`, the current title, `" to "`, the printed target title and a closing `"`, in that order and nothing else |
| Dispatch.DispatchEffects | apps/web/src/components/affine/pinboard/pinboard-menu/index.tsx:53-66 | a click makes a containment `handleDrop(current.id, dropId)` first, whether or not dropId is a candidate. The observer is called right after it, with the same pair, only when present. Exactly one toast comes last, with the text `Moved "<current title>" to "<target title>"`, the target title being that of the first page with the id, or "undefined" |
| Dispatch.DispatchScenario | apps/web/src/components/affine/pinboard/pinboard-menu/index.tsx:53-63 | clicking "a" while "b" is open makes the drop, the observer call and the toast `Moved "Beta" to "Alpha"`, in that order |
| Removal.FindParent | apps/web/src/components/affine/pinboard/pinboard-menu/index.tsx:116-119 | there is no parent exactly when no page's child list holds the id; otherwise the parent is the first page in order whose child list holds it |
| Removal.IndexOf | apps/web/src/components/affine/pinboard/pinboard-menu/index.tsx:121-123 | the delete index is -1 exactly when the id is absent; otherwise it holds the id and no earlier entry does |
| Removal.RemoveFirstAt | apps/web/src/components/affine/pinboard/pinboard-menu/index.tsx:120-124 | removing the first occurrence keeps the entries before it and after it, later duplicates included, in order |
| Removal.RemoveFirstAbsent | apps/web/src/components/affine/pinboard/pinboard-menu/index.tsx:120-124 | a child list without the id is left unchanged |
| Removal.RemoveFirstMultiset | apps/web/src/components/affine/pinboard/pinboard-menu/index.tsx:120-124 | the new list is one shorter and is the old list's multiset less exactly one copy of the id |
| Removal.ReinsertRestores | apps/web/src/components/affine/pinboard/pinboard-menu/index.tsx:120-124 | inserting the id back at the delete index restores the parent's original list |
| Removal.SpliceRemovesFirst | apps/web/src/components/affine/pinboard/pinboard-menu/index.tsx:119-124 | when the id is present, the delete index is a valid position and `splice` at it gives the first-occurrence removal |
| Removal.SpliceAtMissingDropsLast | apps/web/src/components/affine/pinboard/pinboard-menu/index.tsx:119-124 | if the chosen list did not hold the id, `findIndex` would give -1 and `splice` would drop the last entry instead; choosing the parent by `includes` keeps this from happening |
| Removal.RemovalEffects | apps/web/src/components/affine/pinboard/pinboard-menu/index.tsx:115-126 | at most one `setPageMeta` call. It is absent exactly when no page holds the id. Otherwise it targets the first such page with that page's list minus the first occurrence of the id |
| Removal.FindIndexIn | apps/web/src/components/affine/pinboard/pinboard-menu/index.tsx:121-123 | the linear scan of the copied array returns the first position of the id, or -1 |
| Removal.SpliceOneInPlace | apps/web/src/components/affine/pinboard/pinboard-menu/index.tsx:124 | after the in-place shift, the array's live prefix is the `splice(start, 1)` result on its old contents |
| Removal.RemoveFirstInCopy | apps/web/src/components/affine/pinboard/pinboard-menu/index.tsx:120-124 | copying the list into a fresh array, finding the id and splicing there yields the list minus the id's first occurrence |
| Removal.RemovalScenario | apps/web/src/components/affine/pinboard/pinboard-menu/index.tsx:115-126 | detaching "b" from "a" calls `setPageMeta("a", [])` once |
| Menu.PinboardMenu.constructor | apps/web/src/components/affine/pinboard/pinboard-menu/index.tsx:31-41 | a mounted menu keeps its props, starts with the empty query and has made no calls |
| Menu.PinboardMenu.SetQuery | apps/web/src/components/affine/pinboard/pinboard-menu/index.tsx:88-90 | typing replaces the query and makes no collaborator call |
| Menu.PinboardMenu.View | apps/web/src/components/affine/pinboard/pinboard-menu/index.tsx:99-109 | the menu shows the flat list exactly when its query is non-empty; the list is the filter's result, holding exactly the matching candidates in their original order |
| Menu.PinboardMenu.HandleClick | apps/web/src/components/affine/pinboard/pinboard-menu/index.tsx:53-66 | a click appends exactly the dispatch calls to the trace, in order |
| Menu.PinboardMenu.RemoveFromPinboard | apps/web/src/components/affine/pinboard/pinboard-menu/index.tsx:111-126 | the remove button appends exactly the removal calls to the trace. The parent's list is copied into a fresh array, so the metadata the menu was given is not touched |

## Left out

- Rendering: the menu surface and its 320×480 size, the search input, the result list, the suggestion tree, icons, styles and `stopPropagation`. None of this holds logic.
- The tree built by `usePinboardData`, and what `handleDrop` and `setPageMeta` do with their arguments. Those hooks are not part of this model. They appear only as recorded calls.
- How the toast is displayed and the `t(...)` translations. Only the toast's text is modelled.
- React state and memoisation (`useState`, `useCallback` dependencies). The query is a field set by `SetQuery`, and the callbacks are methods.
- Menu.PinboardMenu.RemoveFromPinboard: requires `showRemovePinboard`, because the button that runs this handler is only rendered when that prop is set.
- Menu.PinboardMenu.HandleClick: the optional `onPinboardClick` is a flag saying whether it was passed. Its call is recorded as an event, not run.
- `splice` shrinking a JavaScript array is modelled as an in-place shift in a fixed-size array plus a returned length.
