# Transaction CSV import: batch reconciliation model

A Dafny model of the batch logic inside `ImportTransactionsService.execute`
of a personal-finance API. The service reads a CSV file of transactions
(`title, type, value, category`). It does three things:

1. **Row collector.** It keeps every row whose title, type and value are all
   non-empty. For each kept row it appends the category name to
   `categories` and a draft to `transactions`, in file order.
2. **Category reconciler.** It looks up the stored categories whose titles
   occur among the collected names. It then computes `addCategoryTitles`:
   the collected names that no found category has, each listed once, in
   order of first occurrence. One new category is created per title.
3. **Materializer.** It maps each draft to a transaction record. The record
   keeps the draft's title, type and value. Its category is the first element
   of `[...newCategories, ...existentCategories]` whose title equals the
   draft's category name.

The model does not use the CSV library, the filesystem or the ORM.
The parser's output is a sequence of four-field `Row`s. Storage is a
sequence of stored categories. The `find ... In(...)` lookup is
`Reconciler.FindByTitles`.

Files and modules:

- `records.dfy` (`Records`): rows, drafts, categories (`Existing(id, title)`
  from storage, `Created(title)` built by the import), transaction records.
- `array_ops.dfy` (`ArrayOps`): the JavaScript array operations the code is
  written with (`indexOf`, the `includes` filter, and the first-occurrence
  filter `self.indexOf(value) === index`), with their properties.
- `collector.dfy` (`Collector`): the per-row handler as a loop (`Collect`),
  specified by the function `Drafts`.
- `reconciler.dfy` (`Reconciler`): the lookup and `addCategoryTitles`.
- `materializer.dfy` (`Materializer`): the first-match `find` and the map
  from drafts to transaction records.
- `import_service.dfy` (`ImportService`): `Execute`, the whole pipeline,
  with an end-to-end contract, and two client methods that call `Execute` on
  small concrete batches.

An empty category name is handled like any other name. A complete row with
category `""` puts `""` into `addCategoryTitles`, so a category titled `""`
is created and the draft resolves to it
(src/services/ImportTransactionsService.ts:42, 55-57). So every transaction
the pipeline produces has a category (`ImportService.Execute`).
`Materializer.FindCategory` still models the absent case (`undefined`) that
`find` can return.

## Model

| member | source | states |
|---|---|---|
| ArrayOps.IndexOf | src/services/ImportTransactionsService.ts:57 | `indexOf`: -1 exactly when the value is absent; otherwise a position holding it with no earlier occurrence |
| ArrayOps.Exclude | src/services/ImportTransactionsService.ts:56 | the `includes` filter keeps exactly the values of the input that are not banned, and never lengthens it |
| ArrayOps.FirstOccurrences | src/services/ImportTransactionsService.ts:57 | the first-occurrence filter over a prefix keeps exactly the prefix's values, without repeats, in increasing order of first occurrence |
| ArrayOps.KeepFirstOccurrences | src/services/ImportTransactionsService.ts:57 | `filter((value, index, self) => self.indexOf(value) === index)`: same set of values, no duplicates, ordered by first occurrence |
| ArrayOps.ExcludePreservesOrder | src/services/ImportTransactionsService.ts:55-57 | filtering out existing titles keeps the relative order of the first occurrences of the remaining names |
| ArrayOps.DistinctCardinality | src/services/ImportTransactionsService.ts:57 | a list without repeats is as long as the set of its values |
| Collector.IsComplete | src/services/ImportTransactionsService.ts:40 | definition of the negated line-40 guard (return when title, type or value is falsy): for strings JavaScript treats only `""` as falsy, so it asks for a non-empty title, type and value; its effect is proved in Collector.IncompleteRowAddsNothing, Collector.CompleteRowAddsItsDraft and Collector.CompleteIndicesAreCompleteRows |
| Collector.DraftOf | src/services/ImportTransactionsService.ts:43 | definition of the object pushed by the handler, all four fields verbatim; `Collect` appends exactly this, and Collector.DraftsAreCompleteRowsInOrder proves the drafts are the converted complete rows in file order |
| Collector.Drafts | src/services/ImportTransactionsService.ts:36-44 | the collected drafts are at most as many as the rows, and each has a non-empty title, type and value |
| Collector.Collect | src/services/ImportTransactionsService.ts:33-44 | the handler loop yields `transactions == Drafts(rows)`, and `categories` has the same length, its i-th name being the i-th draft's category |
| Collector.CompleteIndicesAreCompleteRows | src/services/ImportTransactionsService.ts:40 | the listed positions are exactly those of the rows passing the guard, in strictly increasing order |
| Collector.DraftsAreCompleteRowsInOrder | src/services/ImportTransactionsService.ts:38-43 | the i-th draft is the row at the i-th listed position, converted field by field: with the lemma above, the drafts are exactly the complete rows in file order |
| Collector.DraftsAppend | src/services/ImportTransactionsService.ts:36-44 | collecting a concatenation of row sequences is the concatenation of the collections |
| Collector.IncompleteRowAddsNothing | src/services/ImportTransactionsService.ts:40 | a row with an empty title, type or value leaves the batch exactly as if it were absent |
| Collector.CompleteRowAddsItsDraft | src/services/ImportTransactionsService.ts:42-43 | a complete row adds its own draft, between the drafts of the rows before and after it |
| Reconciler.FindByTitles | src/services/ImportTransactionsService.ts:48-52 | the lookup returns exactly the stored categories whose title is among the collected names |
| Reconciler.AddCategoryTitles | src/services/ImportTransactionsService.ts:55-57 | a title is to be created if and only if it was collected and is not an existing title; no title is listed twice |
| Reconciler.Titles | src/services/ImportTransactionsService.ts:53 | the title map gives one title per found category, each the title of some found category |
| Reconciler.NewCategories | src/services/ImportTransactionsService.ts:59-61 | `create` builds one new category per title, all without an id, covering every title, with distinct titles when the titles are distinct; its use in the import is proved in `ImportService.CreatedCategories` |
| Reconciler.TitleOf | src/services/ImportTransactionsService.ts:53 | each category's title is among the mapped titles |
| Reconciler.AddCategoryTitlesInFirstOccurrenceOrder | src/services/ImportTransactionsService.ts:55-57 | titles to create appear in the order of their first occurrence among the collected names |
| Reconciler.OneTitlePerMissingName | src/services/ImportTransactionsService.ts:55-61 | exactly one title per distinct collected name that is not an existing title, so repeated new names create one category |
| Reconciler.LookupFindsStoredTitle | src/services/ImportTransactionsService.ts:48-53 | for a collected name, the lookup's titles contain it if and only if storage holds a category with that title |
| Reconciler.NoStoredTitleCreated | src/services/ImportTransactionsService.ts:48-57 | no title to create is the title of any stored category, so re-importing an existing name never duplicates it |
| Reconciler.NothingToCreate | src/services/ImportTransactionsService.ts:48-61 | when every collected name is stored, including when nothing was collected, nothing is created |
| Materializer.FindIndex | src/services/ImportTransactionsService.ts:72-74 | the position `find` stops at: the first category with the title, or -1 when none has it |
| Materializer.FindCategory | src/services/ImportTransactionsService.ts:72-74 | `find` is absent exactly when no category has the name; otherwise it is the first category with that title |
| Materializer.Materialize | src/services/ImportTransactionsService.ts:67-75 | one record per draft, same count and order, title, type and value unchanged, category the first match by name |
| Materializer.FindIndexInConcat | src/services/ImportTransactionsService.ts:65-74 | in a concatenation the first match is in the front part when it has one, else in the back part, shifted |
| Materializer.FindCategoryInConcat | src/services/ImportTransactionsService.ts:65-74 | in `[...newCategories, ...existentCategories]` a match among the new categories wins |
| Materializer.SkipOtherTitle | src/services/ImportTransactionsService.ts:72-74 | a leading category with another title does not change the first match |
| Materializer.LookupKeepsFirstMatch | src/services/ImportTransactionsService.ts:48-52 | for a collected name, the first match among the lookup's result is the first match in the whole store |
| ImportService.ResolvesAgainstAll | src/services/ImportTransactionsService.ts:53-74 | every collected name resolves: to the first existing category with that title, or else to the new category created for it |
| ImportService.ResolvesAgainstStorage | src/services/ImportTransactionsService.ts:48-74 | with the lookup in place, a collected name resolves to the first stored category with its title if storage has one, otherwise to `Created(name)` |
| ImportService.CreatedCategories | src/services/ImportTransactionsService.ts:48-63 | new categories are all built by the import, one per collected name that storage lacks, none already stored, titles distinct, in first-occurrence order |
| ImportService.Execute | src/services/ImportTransactionsService.ts:18-82 | whole import: one transaction per complete row, in row order, fields unchanged; each gets the stored category with its name, or the one created for it; new categories have distinct titles, are exactly the missing names, are not among the stored categories, and there are none when every name is stored; stored categories are required to carry their id |

## Left out

- Reading the file (`fs.createReadStream`) and deleting it afterwards (`fs.promises.unlink`) are filesystem I/O. In the source the delete runs only after both saves succeed. The model has no file.
- CSV tokenising is done by the `csv-parse` library: header skipping, trimming and splitting fields. Its output is given as a sequence of four-field rows. A short row, whose missing fields would be `undefined`, is not modelled. A missing title, type or value behaves like an empty one, which the model covers.
- `getCustomRepository`, `getRepository` and both `save` calls are left out. The two `create` calls become plain values: `NewCategories` builds `Created(title)` without an id, and `Materialize` builds `Transaction` records. The ids that `save` assigns in place to the same objects are not modelled. Storage failures, which abort the import, are not modelled.
- Reconciler.FindByTitles returns the matches in storage order. The database does not promise any order. Because stored titles are expected to be unique, the order does not change which category a name resolves to.
- The asynchronous plumbing (the `'data'` and `'end'` events and the awaits) is left out. Rows arrive as a finite sequence, handled in order. The race between concurrent imports that create the same new category is out of scope.
- `value` is never converted and `type` is never validated by the code. Both stay text.
