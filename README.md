# Wiki page-tree store

A Dafny model of the page store of a browser wiki (`WikiProvider` in
`src/contexts/WikiContext.tsx`). The store holds a forest of pages. A
folder or document page has an id, a title, an optional children array,
an optional expansion flag and optional content. Beside the forest the
store keeps the id of the active page, a save status
(`saved | saving | error | unsaved`) and the time of the last save.

The model is laid out in six modules:

- `PageModel` (`page_model.dfy`):
  - the `Page` record, with JavaScript's optional properties as `Option`
    and the children array as `Children = Absent | Present(pages)`;
  - the pre-order views of a forest: `Nodes`, `Ids`, `Titles` and `Count`;
  - the store's invariant `UniqueIds`, meaning no id occurs twice anywhere in
    the forest.
- `Lookup` (`lookup.dfy`):
  - `findPage` as the recursive function `Find`;
  - the source's loop as the method `FindPage`, proved equal to `Find`;
  - `Find` proved equal to an independent reference: the first match in the
    pre-order list of nodes.
- `Locus` (`locus.dfy`): a position in the forest (`Context`). `Fill(c, xs)`
  is the forest with the hole at `c` filled by `xs`, and `Locate` finds the
  position of the page that `Find` returns. Together they state "this page
  is replaced and nothing else changes".
- `Edits` (`edits.dfy`):
  - the source has five map-and-recurse traversals (`updateChildren` in
    `addPage`, `updateTitle`, `toggle`, and the two `updateContent`s in
    `saveContent` and `updatePageContent`), the filter in `deleteFromPages`,
    and the flattening map in `insertDuplicate`;
  - `Rewrite` renders all seven as one function, each operation an instance
    of it. The filter gives the same value as a rewrite to nothing, but it
    also reassigns children in place (see the `WikiStore.Wiki.DeletePage`
    line under "Left out");
  - `RewriteAt` proves that for a forest with unique ids, the traversal
    replaces exactly the located page;
  - the per-operation lemmas derive each operation's effect from
    `RewriteAt`.
- `Duplication` (`duplication.dfy`):
  - `duplicateWithNewId` over a supply of fresh ids, taken in pre-order;
  - lemmas proving the copy's ids are the first ids of the supply;
  - lemmas proving the copy has the original's shape, kinds, flags and
    contents, and that every title gains " (Copy)".
- `WikiStore` (`store.dfy`): the class `Wiki`, one field per state cell of
  the provider, and one method per operation. Each method keeps `Valid()`
  (unique ids) and states its whole new state.

Inputs the source takes from its environment are parameters of the model:

- the clock (`Date.now()`, `new Date()`) becomes `newId`, `newIds` and `now`;
- the random id suffix is part of `newIds`;
- whether the persistence call succeeds becomes `persisted`.

The store's code does the following, which a reader might not expect:

- There is no move or reparent operation in the store. `updatePageOrder`
  (`src/contexts/WikiContext.tsx:322`) is the raw `setPages`, and no caller
  in the source uses it.
- `duplicatePage` appends " (Copy)" to every title in the copy, not only to
  the root's.
- `deletePage` clears the active page only when it is the deleted page itself.
  It stays set when the deleted subtree merely contains it.
- `addPage` makes no check that the parent is a folder. Neither does
  `toggleFolder` on its target, nor `updatePageContent` on a document.
- `addPage` with an unknown parent changes the forest not at all. A new
  document still becomes the active page (line 108).
- `updatePageContent` sets the status to `unsaved` from any state, `saving`
  included.
- An empty string counts as "no parent" in `addPage` and as "no active page"
  in `forceSave` (JavaScript's `!x`).

## Model

| member | source | states |
|---|---|---|
| Lookup.Find | src/contexts/WikiContext.tsx:65-74 | the recursive definition of `findPage`: a root, then its children array if present, then the later roots; a found page carries the id (its full meaning is stated by `Lookup.FindIsFirstInPreorder`) |
| Lookup.FindPage | src/contexts/WikiContext.tsx:65-74 | the loop over the roots, with early return and recursive descent, computes exactly `Find`: the first page in pre-order with the id |
| Lookup.FindIsFirstInPreorder | src/contexts/WikiContext.tsx:65-74 | `Find` equals the first match in the pre-order node list; it is `None` exactly when the id is not in the forest; a found page carries the id |
| Lookup.FindUnique | src/contexts/WikiContext.tsx:65-74 | with unique ids, any node carrying the id is the one `findPage` returns |
| Locus.LocateFill | src/contexts/WikiContext.tsx:65-74 | supporting lemma for the traversals: putting the found page back at its located position rebuilds the forest, so `Locate` is where `findPage` found it |
| Locus.FillIds | src/contexts/WikiContext.tsx:89-103 | supporting lemma for the traversals: the pre-order ids of a rebuilt forest are the ids before the position, those of the pages placed there, then those after it |
| Edits.Rewrite | src/contexts/WikiContext.tsx:89-103 | definition of the shared traversal: a matching page is replaced by what the operation makes of it, without descent; every other page with a children array has it rebuilt (its effect is stated by `Edits.RewriteAt` and `Edits.RewriteAbsent`) |
| Edits.Expand | src/contexts/WikiContext.tsx:91-97 | definition: the parent with the new page appended to `children ?? []` and `isExpanded` set to true (stated by `Edits.AddChildEffect`) |
| Edits.AddChild | src/contexts/WikiContext.tsx:89-103 | definition of `updateChildren` as a rewrite to `Expand` (stated by `Edits.AddChildEffect`) |
| Edits.Delete | src/contexts/WikiContext.tsx:117-125 | definition of `deleteFromPages` as a rewrite to nothing (stated by `Edits.DeleteRemovesAll` and `Edits.DeleteEffect`) |
| Edits.Retitle | src/contexts/WikiContext.tsx:141-151 | definition of `updateTitle` (stated by `Edits.RetitleEffect`) |
| Edits.Flip | src/contexts/WikiContext.tsx:164 | definition of `!page.isExpanded`, with undefined read as false (stated by `Edits.ToggleEffect` and `Edits.ToggleTwiceFromUndefined`) |
| Edits.Toggle | src/contexts/WikiContext.tsx:161-171 | definition of `toggle` as a rewrite to `Flip` (stated by `Edits.ToggleEffect` and `Edits.ToggleTwice`) |
| Edits.SetContent | src/contexts/WikiContext.tsx:211-221 | definition of `updateContent`, the same at lines 185-195 (stated by `Edits.SetContentEffect` and `Edits.SetContentSame`) |
| Edits.InsertDuplicate | src/contexts/WikiContext.tsx:251-266 | definition of `insertDuplicate` as a rewrite to the original followed by the copy (stated by `Edits.InsertDuplicateEffect`) |
| Edits.RewriteAbsent | src/contexts/WikiContext.tsx:89-103 | the map-and-recurse traversal leaves a forest without the id unchanged |
| Edits.RewriteAt | src/contexts/WikiContext.tsx:89-103 | with unique ids, the traversal replaces the page `findPage` returns, at its position, by what the operation makes of it, and leaves every other page as it was |
| Edits.AddChildEffect | src/contexts/WikiContext.tsx:86-106 | an unknown parent leaves the forest unchanged; otherwise only the parent changes: the new page becomes its last child (an absent array counts as empty) and it is expanded; the count grows by one; ids stay unique for a fresh id |
| Edits.DeleteRemovesAll | src/contexts/WikiContext.tsx:116-127 | after deletion no page with the id remains, at any depth |
| Edits.DeleteEffect | src/contexts/WikiContext.tsx:116-127 | an unknown id changes nothing; otherwise the page's position is emptied; the remaining ids keep their order; the count drops by the subtree's size; ids stay unique |
| Edits.RetitleEffect | src/contexts/WikiContext.tsx:140-153 | only the found page's title changes; an unknown id changes nothing; the pre-order ids are unchanged |
| Edits.ToggleEffect | src/contexts/WikiContext.tsx:159-174 | only the found page's flag changes: it becomes the negation of its old value, with undefined read as false; the pre-order ids are unchanged |
| Edits.ToggleTwice | src/contexts/WikiContext.tsx:159-174 | toggling the same id twice restores the forest when every page with that id has a defined flag |
| Edits.ToggleTwiceFromUndefined | src/contexts/WikiContext.tsx:164 | with an undefined flag, two toggles give `false`, not the original page |
| Edits.SetContentEffect | src/contexts/WikiContext.tsx:209-223 | only the found page's content changes (whatever its kind); an unknown id changes nothing; the ids are unchanged |
| Edits.SetContentSame | src/contexts/WikiContext.tsx:227-233 | saving back the content just read from a page leaves the forest as it was |
| Edits.InsertDuplicateEffect | src/contexts/WikiContext.tsx:250-268 | the copy is placed right after the original, in the original's sibling list; nothing else moves; the count grows by the copy's size; ids stay unique when the copy's ids are fresh |
| Duplication.DuplicateAll | src/contexts/WikiContext.tsx:239-247 | definition of `duplicateWithNewId` mapped over a sibling list, with the ids taken from a supply in pre-order (stated by `Duplication.DuplicateIds`, `Duplication.DuplicateSkeleton` and `Duplication.DuplicateTitles`) |
| Duplication.DuplicateWithNewIds | src/contexts/WikiContext.tsx:239-249 | definition of the copy of one page (stated by `Duplication.DuplicateWithNewIdsEffect`) |
| Duplication.DuplicateIds | src/contexts/WikiContext.tsx:239-247 | the copy's ids, in pre-order, are the first ids of the fresh supply, one per node of the original |
| Duplication.DuplicateSkeleton | src/contexts/WikiContext.tsx:239-247 | apart from ids and titles, the copy equals the original: shape, kinds, flags, contents, and absent children arrays stay absent |
| Duplication.DuplicateTitles | src/contexts/WikiContext.tsx:244-245 | every title of the copy, at every depth, is the original's title at the same pre-order position followed by " (Copy)" |
| Duplication.DuplicateWithNewIdsEffect | src/contexts/WikiContext.tsx:239-249 | the copy of one page: its root takes the supply's first id, its ids are the supply's first `Size(p)` ids, and it has the same skeleton and suffixed titles |
| WikiStore.NewPage | src/contexts/WikiContext.tsx:77-84 | the new page's defaults by kind: the title; a folder has an empty children array, is expanded and has no content; a document has empty content and no children array or flag |
| WikiStore.InitialPages | src/contexts/WikiContext.tsx:35-58 | definition of the seed forest, page by page and field by field (stated by `WikiStore.InitialIds`) |
| WikiStore.AtRoot | src/contexts/WikiContext.tsx:87 | definition of `!parentId`: an undefined or empty parent id |
| WikiStore.HasSaveTarget | src/contexts/WikiContext.tsx:228-230 | definition of the guards of `forceSave`: a non-empty active id whose page is found and has defined content |
| WikiStore.InitialIds | src/contexts/WikiContext.tsx:35-58 | the seed forest's ids in pre-order are 1, 1-1, 1-2, 2, 2-1, and they are unique |
| WikiStore.Wiki.constructor | src/contexts/WikiContext.tsx:35-63 | the store starts with the seed forest, no active page, status `saved` and no last-save time, and satisfies the invariant |
| WikiStore.Wiki.SetActivePage | src/contexts/WikiContext.tsx:59 | sets the active page and nothing else |
| WikiStore.Wiki.GetPage | src/contexts/WikiContext.tsx:323 | returns `Find` on the current forest: `None` exactly when the id is absent |
| WikiStore.Wiki.AddPage | src/contexts/WikiContext.tsx:76-111 | with no parent, the new page is appended to the roots; otherwise the parent alone gains it as its last child, and an unknown parent changes nothing; the count grows accordingly; a document becomes active; ids stay unique |
| WikiStore.Wiki.DeletePage | src/contexts/WikiContext.tsx:113-135 | removes the page and its subtree; no page with the id remains; the count drops by the subtree's size; the active page is cleared exactly when it was the deleted id |
| WikiStore.Wiki.RenamePage | src/contexts/WikiContext.tsx:137-157 | only the found page's title changes; the other state is unchanged |
| WikiStore.Wiki.ToggleFolder | src/contexts/WikiContext.tsx:159-174 | only the found page's expansion flag flips; the other state is unchanged |
| WikiStore.Wiki.BeginSave | src/contexts/WikiContext.tsx:176-181 | the status becomes `saving`, and nothing else changes |
| WikiStore.Wiki.FinishSave | src/contexts/WikiContext.tsx:183-206 | on success the content is written, `lastSaved` is the clock reading and the status is `saved`; on failure only the status changes, to `error` |
| WikiStore.Wiki.SaveContent | src/contexts/WikiContext.tsx:176-207 | `saveContent` run to completion: the success and failure outcomes as for `FinishSave` |
| WikiStore.Wiki.UpdatePageContent | src/contexts/WikiContext.tsx:209-225 | only the found page's content changes, and the status becomes `unsaved` whether or not the id was found |
| WikiStore.Wiki.ForceSave | src/contexts/WikiContext.tsx:227-233 | without a non-empty active id whose page has content, nothing changes; otherwise the forest and active page are unchanged and the status ends `saved`, with the time set, or `error` |
| WikiStore.Wiki.DuplicatePage | src/contexts/WikiContext.tsx:235-272 | an unknown id changes nothing; otherwise a copy with fresh ids and the original's skeleton and suffixed titles is inserted right after the original; the count grows by the subtree's size; ids stay unique |

## Left out

- Notifications (`toast`) and console output: these are display side effects
  that carry no state.
- The simulated 800 ms persistence delay: it is replaced by the `persisted`
  outcome. As written, the awaited timer always resolves, so the `catch` at
  line 202 cannot be reached. The `persisted = false` branch models the real
  API call that the comment at line 180 announces, which can fail. The interleaving of other operations with a save in flight is not
  modelled. A caller can sequence `BeginSave` and `FinishSave` by hand to
  represent one such interleaving.
- `Date.now()`, `new Date()` and `Math.random()`: they become the parameters
  `newId`, `newIds` and `now`. Their freshness is a precondition. The source
  does not guarantee it: two ids drawn in the same millisecond can collide.
- `exportPage` and `copyPageLink`: they only do browser I/O (a file download
  and the clipboard) and never touch the store's state.
- `updatePageOrder`: it is the raw `setPages` setter, so it accepts any
  forest, and the store keeps no invariant over it. The React context
  plumbing and `useWiki` are also left out.
- WikiStore.Wiki.DeletePage: `deleteFromPages` assigns the filtered children
  back into the existing page objects, mutating the previous state in place.
  The model builds a new forest instead, so aliasing with earlier snapshots
  is not captured.
- WikiStore.Wiki.AddPage, WikiStore.Wiki.DuplicatePage: they require fresh
  ids, which the source only assumes of its clock-based ids.
- The sidebar, editor and other UI components are not part of this model.
