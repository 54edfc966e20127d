# Property sites kanban board — a Dafny model

The application is a single-page kanban board for property sites. The page
owns a list of columns, one per pipeline stage. Each column holds an ordered
list of site cards. The page's handlers do all of the following:

- move a card to another column by drag and drop;
- reorder columns (a handler the page passes on, but which the column component neither declares nor calls);
- tick one card or every card;
- add an empty stage;
- filter the visible cards by tag;
- search stage names and site addresses.

Each column deletes and duplicates its own cards and hands the changed column
back to the page. It also has a handler for an edited card, which the card
component receives but never calls. The column-reorder handler and the
edited-card handler are modelled all the same, though the page as wired never
reaches them. It also keeps a local collapse flag that the
page-wide "collapse all" overrides. The header turns the Enter key into a
search, shows the number of selected tags, and clears the tag selection.

The model is split into these modules:

| module | file | what it holds |
|---|---|---|
| `Strings` | `strings.dfy` | The string primitives the handlers rely on: ASCII `toLowerCase`, ECMAScript `trim`, `includes`, and the decimal rendering of a timestamp, with its round trip. |
| `Lists` | `lists.dfy` | Toggling a value in a selection list, as the tag filter and the user filter do, and the left fold of several toggles. |
| `Kanban` | `kanban.dfy` | The `Site` and `Column` records; `findIndex` and `filter` by id; the flattening of the board into all its sites. |
| `ColumnOps` | `column.dfy` | A column's card edits, the drop rule for dragged cards, and the column's collapse state as a class. |
| `Search` | `search.dfy` | The hits of a search as reference functions. `RunSearch` and `SearchColumn` are the page's nested loops, proved equal to those functions. |
| `Header` | `header.dfy` | Both header components' helpers, which are identical. |
| `Board` | `board.dfy` | The page's transitions as functions, the tag-filtered view, and the class `Page`. Each `Page` handler is stated against those functions. |

Some page state is passed in rather than modelled:

- The clock (`Date.now()`) is a parameter `now: nat`.
- The drag-and-drop library's "already dropped on a nested target" flag is a parameter `handledByNested`.

Three behaviours of the code are easy to misread, and the model states them:

- **Column flag on an empty column.** The column flag after a checkbox change is `every` over the column's sites, so a column without sites reads as selected. See `Board.EmptyColumnReadsSelected`.
- **Column drop index.** A dropped column is reinserted at the index its target had before the dragged column was removed. So a column dragged to the right lands just after its target, not at the target's index after the removal. See `Board.MovedColumnBesideTarget`.
- **Flags after a move.** A site move does not recompute any column's selection flag, even when the moved site is the only unselected one of its column. See `Board.MoveSiteKeepsIdsAndFlags`, which keeps every `isSelected` as it was.

The page's card edits are modelled as the page wires them: the column edits the
tag-filtered copy it was rendered with, and that copy is stored over the column.
`Board.Page.EditCard` does exactly that; the write-back that keeps hidden cards
is `Board.EditStored` (see "## Findings").

## Model

| member | source | states |
|---|---|---|
| Strings.Lower | src/pages/PropertySitesKanban.tsx:172 | `toLowerCase` keeps the length, turns each capital into its small letter and keeps every other character |
| Strings.LowerIdempotent | src/pages/PropertySitesKanban.tsx:412 | lowering an already lowered string changes nothing |
| Strings.Trim | src/pages/PropertySitesKanban.tsx:157 | the trimmed string occurs inside the original, everything before and after it is white space, and it neither starts nor ends with white space |
| Strings.TrimEmptyIffBlank | src/pages/PropertySitesKanban.tsx:157 | `!term.trim()` holds exactly when every character of the term is white space |
| Strings.Contains | src/pages/PropertySitesKanban.tsx:176 | `includes`: the needle is a prefix of the text or of some suffix of it, so the empty needle is in every text |
| Strings.ContainsIffOccurs | src/pages/PropertySitesKanban.tsx:176 | `includes` holds exactly when the needle occurs at some position of the text |
| Strings.Decimal | src/pages/PropertySitesKanban.tsx:260 | the timestamp in an id is written with decimal digits, no leading zero and at least one digit |
| Strings.DecimalRoundTrip | src/components/chakra/KanbanColumn.tsx:117 | reading the digits of a rendered timestamp gives the timestamp back |
| Strings.DecimalInjective | src/components/chakra/KanbanColumn.tsx:117 | different timestamps render differently |
| Lists.Without | src/components/chakra/Header.tsx:90 | `filter(u => u !== user)` removes every copy of the value and keeps every other value |
| Lists.Toggled | src/pages/PropertySitesKanban.tsx:282-288 | a selected value is removed, the selection gets shorter and every other value stays selected or unselected as before; an unselected value is appended at the end |
| Lists.ToggleTwiceRestores | src/components/chakra/Header.tsx:88-93 | toggling a value that was not selected and then toggling it again gives the original selection |
| Lists.ToggledKeepsNoDuplicates | src/pages/PropertySitesKanban.tsx:282-288 | a toggle keeps a duplicate-free selection duplicate-free |
| Lists.WithoutKeepsNoDuplicates | src/pages/PropertySitesKanban.tsx:285 | removing a tag keeps a duplicate-free selection duplicate-free |
| Lists.ToggleHead | src/pages/PropertySitesKanban.tsx:284-285 | in a selection without duplicates, toggling its first value drops exactly that value |
| Lists.ToggleEachOwnEmpties | src/components/chakra/Header.tsx:109-112 | toggling each tag of a duplicate-free selection, one after the other, empties it |
| Header.TriggersSearch | src/components/chakra/Header.tsx:96 | only the key named `Enter` runs the search |
| Header.SelectedTagsCount | src/components/chakra/Header.tsx:101-103 | the count the button reports is the length of the selection, duplicates included |
| Header.TagCountLabel | src/components/chakra/Header.tsx:172 | the button shows nothing for no tag and otherwise `(n)`, whose digits read back as the number of selected tags |
| Header.ClearAllTags | src/components/Header.tsx:99-102 | "Clear all" is the fold of one toggle per tag; a duplicate-free selection comes out empty |
| Header.ClearAllWithDuplicateKeepsTag | src/components/chakra/Header.tsx:111 | a selection holding one tag twice ends up holding it once |
| Kanban.SiteIndex | src/pages/PropertySitesKanban.tsx:324 | `findIndex` gives the first site with the id, or -1 exactly when none has it |
| Kanban.ColumnIndex | src/pages/PropertySitesKanban.tsx:312-313 | `findIndex` gives the first column with the id, or -1 exactly when none has it |
| Kanban.SitesWithout | src/pages/PropertySitesKanban.tsx:332 | no site with the id is left, and the list does not grow |
| Kanban.SitesWithoutKeeps | src/components/chakra/KanbanColumn.tsx:110 | the id filter invents no site and keeps every site whose id differs |
| Kanban.SitesWithoutAppend | src/components/chakra/KanbanColumn.tsx:110 | the id filter distributes over concatenation, so the kept sites stay in order |
| Kanban.SitesWithoutUnique | src/pages/PropertySitesKanban.tsx:331-332 | when only one site has the id, the filter removes exactly that site |
| Kanban.AllSitesUpdate | src/pages/PropertySitesKanban.tsx:340-341 | replacing one column changes the board's sites by exactly that column's old and new sites |
| ColumnOps.UpdateSite | src/components/chakra/KanbanColumn.tsx:102-107 | each site with the edited id becomes the edited site; the other sites, the order and every other field are kept |
| ColumnOps.UpdateAbsentSite | src/components/chakra/KanbanColumn.tsx:103-105 | an edit for an id the column lacks changes nothing |
| ColumnOps.DeleteSite | src/components/chakra/KanbanColumn.tsx:109-112 | the sites become the id filter's result, so no site with the id is left and every other site is kept in order; the count is the new length; the column shrinks exactly when it held the id |
| ColumnOps.DeleteUniqueSite | src/components/chakra/KanbanColumn.tsx:110 | with a unique id, deleting removes the site at its index and keeps the others in order |
| ColumnOps.DuplicateSite | src/components/chakra/KanbanColumn.tsx:114-122 | one copy is appended with the id `<id>-copy-<now>`, which differs from the original's, and `" (Copy)"` after the address; the other fields are the original's, the old sites are kept, and the count is the new length |
| ColumnOps.CopyIdsDiffer | src/components/chakra/KanbanColumn.tsx:117 | copies of one site made at different instants get different ids |
| ColumnOps.CanDrop | src/components/chakra/KanbanColumn.tsx:81-83 | a card is accepted by every column except the one it was dragged from |
| ColumnOps.Drop | src/components/chakra/KanbanColumn.tsx:74-83 | a drop a nested target handled asks for nothing; any other asks to move the card from its column to this one, and an allowed drop never names the same column twice |
| ColumnOps.CollapseState.Collapsed | src/components/chakra/KanbanColumn.tsx:70 | the column shows collapsed when the page-wide flag or its own flag is set |
| ColumnOps.CollapseState.constructor | src/components/chakra/KanbanColumn.tsx:60 | the local flag starts off, so the column shows the page-wide flag |
| ColumnOps.CollapseState.ToggleCollapse | src/components/chakra/KanbanColumn.tsx:90-95 | the local toggle flips the shown state unless the page collapses everything, when nothing changes |
| ColumnOps.CollapseState.SetGlobalCollapse | src/components/chakra/KanbanColumn.tsx:63-70 | turning "collapse all" on resets the local toggle, so turning it off again shows the column expanded; local is never on while global is |
| Search.KeyOfHit | src/pages/PropertySitesKanban.tsx:182-195 | every hit's key is in the highlight set |
| Search.HitOfKey | src/pages/PropertySitesKanban.tsx:182-195 | every key in the highlight set belongs to some hit |
| Search.KeysExactly | src/pages/PropertySitesKanban.tsx:182-195 | the highlight set holds exactly the keys of the results: `stage-` plus the column id, or `site-` plus the site id |
| Search.BlankIffEmptyNeedle | src/pages/PropertySitesKanban.tsx:164-172 | a term is blank exactly when its lowered and trimmed needle is empty |
| Search.BoardHits | src/pages/PropertySitesKanban.tsx:175-198 | the reference result of a search: column by column, the stage hit when the lowered name contains the needle, then one site hit per site whose lowered address contains it, in site order |
| Search.RunSearch | src/pages/PropertySitesKanban.tsx:163-207 | a blank term gives no results and no highlights; otherwise the results are the board's hits in column order (stage hit first, then site hits), and the highlights are their keys |
| Search.SearchColumn | src/pages/PropertySitesKanban.tsx:175-197 | one column's pass appends that column's stage hit and its site hits, in site order, to the results so far |
| Search.ScanSite | src/pages/PropertySitesKanban.tsx:186-196 | one site's step pushes its hit, if its lowered address contains the needle, and keeps the highlights equal to the results' keys |
| Search.BoardHitsStep | src/pages/PropertySitesKanban.tsx:175 | scanning one more column appends that column's hits after the hits so far |
| Search.SiteHitsStep | src/pages/PropertySitesKanban.tsx:186 | scanning one more site appends that site's hit, if any, after the hits so far |
| Search.SiteHitsSound | src/pages/PropertySitesKanban.tsx:186-196 | every site hit names a site of the column whose lowered address contains the needle |
| Search.SiteHitsComplete | src/pages/PropertySitesKanban.tsx:186-196 | every site whose lowered address contains the needle has a hit |
| Search.StageHitComplete | src/pages/PropertySitesKanban.tsx:176-183 | every column whose lowered name contains the needle has a stage hit |
| Search.SiteHitComplete | src/pages/PropertySitesKanban.tsx:175-197 | every matching site of every column appears among the board's hits |
| Search.BoardHitsSound | src/pages/PropertySitesKanban.tsx:175-197 | every hit names a column whose lowered name contains the needle, or a site of a column whose lowered address contains it |
| Board.SelectedAll | src/pages/PropertySitesKanban.tsx:244-256 | every column and every site takes the flag; every other field and every list is unchanged |
| Board.SelectAllSetsEveryFlag | src/pages/PropertySitesKanban.tsx:246-254 | after "select all", every flag on the board is the chosen value and the counts still match |
| Board.EverySelected | src/pages/PropertySitesKanban.tsx:388 | `every(site => site.isSelected)`: no site of the list is unselected, so an empty list qualifies |
| Board.SiteChecked | src/pages/PropertySitesKanban.tsx:379-399 | the matching sites of the matching column take the flag; that column's flag becomes "every site selected"; every other column is unchanged |
| Board.UncheckClearsColumnFlag | src/pages/PropertySitesKanban.tsx:388 | unchecking a site of a column clears the column's flag |
| Board.CheckLastSetsColumnFlag | src/pages/PropertySitesKanban.tsx:388 | checking the last unchecked site of a column sets the column's flag |
| Board.EmptyColumnReadsSelected | src/pages/PropertySitesKanban.tsx:388 | because `every` is vacuous, a column without sites reads as selected after a checkbox change |
| Board.NewStage | src/pages/PropertySitesKanban.tsx:258-267 | the new stage is empty, unselected, counts zero and is named "New Stage" |
| Board.NewStageIdsDiffer | src/pages/PropertySitesKanban.tsx:260 | stages added at different instants get different ids |
| Board.HasSelectedTag | src/pages/PropertySitesKanban.tsx:410-414 | a site passes the tag filter when some tag of it contains, after lowering both, some selected tag |
| Board.SitesWithTags | src/pages/PropertySitesKanban.tsx:408-415 | the tag filter keeps no more sites than it is given; which ones it keeps is stated by `Board.SitesWithTagsKeeps` |
| Board.SitesWithTagsKeeps | src/pages/PropertySitesKanban.tsx:408-415 | the tag filter invents no site, and a site is kept exactly when one of its tags contains, case-insensitively, some selected tag |
| Board.SitesWithTagsAppend | src/pages/PropertySitesKanban.tsx:408 | the tag filter distributes over concatenation, so kept sites stay in board order |
| Board.FilteredColumns | src/pages/PropertySitesKanban.tsx:402-423 | with no tag selected the view is the board; otherwise each column keeps its matching sites with a matching count, and every other field is unchanged |
| Board.FilterIdempotent | src/pages/PropertySitesKanban.tsx:402-423 | filtering the view again with the same tags changes nothing |
| Board.MovedSite | src/pages/PropertySitesKanban.tsx:300-346 | a failed lookup leaves the board as it was; otherwise the source loses its sites with the id, the target gains the first one at its end, both counts are recomputed, and no other column changes |
| Board.MoveSiteKeepsIdsAndFlags | src/pages/PropertySitesKanban.tsx:330-341 | a move keeps every column's id and selection flag; no flag is recomputed |
| Board.MoveSiteKeepsCounts | src/pages/PropertySitesKanban.tsx:336-337 | a move keeps every column's count equal to its length |
| Board.TransferKeepsSites | src/pages/PropertySitesKanban.tsx:331-341 | taking a site out of one column and appending it to another keeps the board's sites as a multiset |
| Board.TransferUniqueSite | src/pages/PropertySitesKanban.tsx:324-341 | taking a site with a unique id out of one column and appending it to another keeps the board's sites as a multiset, and leaves no site with that id in the source |
| Board.MoveSiteKeepsEverySite | src/pages/PropertySitesKanban.tsx:300-346 | with a unique id in the source, a move keeps the board's sites as a multiset, and the site is last in the target and absent from the source |
| Board.MovedColumn | src/pages/PropertySitesKanban.tsx:348-377 | a column move is a permutation; a failed lookup or equal ids change nothing; the dragged column sits at the target's old index, and taking it out there gives the board with it taken out at its old index |
| Board.MovedColumnBesideTarget | src/pages/PropertySitesKanban.tsx:369-372 | a column dragged right lands just after its target, and one dragged left lands just before it |
| Board.SpliceBeside | src/pages/PropertySitesKanban.tsx:369-372 | splicing a column out and back in at the target's old index puts it just after a target on its right, or just before one on its left |
| Board.MoveSiteUpdate | src/pages/PropertySitesKanban.tsx:300-346 | the updater's step-by-step copy, lookups, filter, append and recount produce exactly the site-move transition, including each early return |
| Board.MoveColumnUpdate | src/pages/PropertySitesKanban.tsx:348-377 | the updater's two splices and its early returns produce exactly the column-move transition |
| Board.ReplacedColumn | src/pages/PropertySitesKanban.tsx:518-521 | each stored column with the updated column's id becomes that column, and the others are unchanged |
| Board.ReplaceAbsentColumn | src/pages/PropertySitesKanban.tsx:519-521 | a write-back for an id the board lacks changes nothing |
| Board.EditThroughView | src/pages/PropertySitesKanban.tsx:507-521 | a card edit stores the edited filtered column over the stored one |
| Board.ViewEditLosesHiddenSite | src/pages/PropertySitesKanban.tsx:507-521 | with a tag filter on, deleting one visible card also erases a card the filter hides |
| Board.EditStored | src/components/chakra/KanbanColumn.tsx:102-122 | a card edit applies to the stored column |
| Board.StoredDeleteKeepsOtherSites | src/components/chakra/KanbanColumn.tsx:109-112 | deleting through the stored column keeps every other site, hidden or not |
| Board.UnfilteredEditsAgree | src/pages/PropertySitesKanban.tsx:403-405 | with no tag selected, both write-backs agree |
| Board.Page.constructor | src/pages/PropertySitesKanban.tsx:139-149 | the page starts with the given columns, no tag, an empty search and nothing selected, so the tag selection starts duplicate-free |
| Board.Page.View | src/pages/PropertySitesKanban.tsx:425 | what the columns are rendered from: the tag-filtered view of the stored columns under the stored selection |
| Board.Page.HandleSearch | src/pages/PropertySitesKanban.tsx:155-161 | the term is stored; a blank term also clears the results and the highlights |
| Board.Page.ExecuteSearch | src/pages/PropertySitesKanban.tsx:163-207 | the results are the hits of the stored term over the stored columns, not the filtered view, and the highlights are their keys |
| Board.Page.KeyPress | src/components/chakra/Header.tsx:95-99 | Enter runs the search; any other key leaves the page unchanged |
| Board.Page.ClearSearch | src/pages/PropertySitesKanban.tsx:226-230 | term, results and highlights are emptied and nothing else changes |
| Board.Page.SelectAll | src/pages/PropertySitesKanban.tsx:244-256 | the page flag and the board follow the "select all" transition |
| Board.Page.AddNewStage | src/pages/PropertySitesKanban.tsx:258-280 | the new stage is appended after the existing columns |
| Board.Page.TagFilter | src/pages/PropertySitesKanban.tsx:282-288 | the tag selection is toggled, stays duplicate-free, and nothing else changes |
| Board.Page.ClearAllTags | src/components/chakra/Header.tsx:109-112 | the selection becomes the fold of its own toggles; since the page's selection never holds a duplicate, it always comes out empty |
| Board.Page.MoveSite | src/pages/PropertySitesKanban.tsx:300-346 | the board becomes the site-move transition of the old board, and nothing else changes |
| Board.Page.DropCard | src/components/chakra/KanbanColumn.tsx:74-80 | a drop a nested target handled changes nothing; any other performs the site move into this column |
| Board.Page.MoveColumn | src/pages/PropertySitesKanban.tsx:348-377 | the board becomes the column-move transition of the old board, and nothing else changes |
| Board.Page.SiteCheckboxChange | src/pages/PropertySitesKanban.tsx:379-399 | the board follows the checkbox transition and nothing else changes |
| Board.Page.EditCard | src/pages/PropertySitesKanban.tsx:507-521 | a card update, delete or duplicate is applied to the tag-filtered column rendered at that index, and the result is stored by id over the stored column; nothing else changes |
| Board.Page.UpdateColumn | src/pages/PropertySitesKanban.tsx:518-521 | the board follows the write-back and nothing else changes |

## Left out

- Rendering, styling, popovers, the site drawer and the card component are left out. They hold no state transition of the board.
- The drag-and-drop library's own machinery is left out: drag sources, hover tracking and the `collect` of `isOver`/`canDrop`. `canDrop` is modelled as a predicate; that a disallowed drop never reaches `drop` is the library's promise and is not modelled.
- Scrolling to the first search hit and to a new stage is left out. It touches the DOM only.
- Console logging is left out.
- The clock is not modelled: every `Date.now()` reading is a parameter.
- Case folding is ASCII only. JavaScript `toLowerCase` also folds non-ASCII letters, and the model does not.
- White space for `trim` is the ECMAScript set of single code points. Strings are sequences of characters, not UTF-16 code units.
- The page's sort choice, user selection, "collapse all" toggle, selected site, drawer flag and dragged-column id are left out. Each is stored and passed on, and none changes the board. The user toggle itself is the same selection toggle as the tag filter (`Lists.Toggled`).
- React's batching and re-rendering are left out. Each handler is one atomic transition of `Board.Page`. The "Clear all" loop is modelled as the composition of its functional updates, which is what React applies.
- Board.Page.DropCard: a drop on the card's own column is forwarded like any other and becomes a no-op in the move. The model does not capture that the library refuses such a drop before `drop` runs.

## Findings

| source | as written | input that shows it | evidently intended | confidence | as-written member | corrected member |
|---|---|---|---|---|---|---|
| src/pages/PropertySitesKanban.tsx:507-521 | Columns are rendered from the tag-filtered view, and a column's card edit writes its filtered copy back over the stored column. | One column with site `a` tagged `Commercial` and site `b` with no tags, and the selected tags `["Commercial"]`. Deleting `a` leaves the stored column with no sites, so `b` is gone too. | The edit applies to the stored column, and the filter only hides cards. | not executed | Board.ViewEditLosesHiddenSite | Board.StoredDeleteKeepsOtherSites |
