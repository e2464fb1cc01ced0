# Quote generator: a Dafny model of its list logic

The repository holds two versions of a single-page quote generator
(`dom-manipulation/javascript.js` and `dom-manipulation/script.js`). Each keeps a
module-level, mutable list of quotes. Each draws a random quote, optionally from one
category. Each lists the distinct categories in a dropdown and appends quotes that the
user enters in a form. The `script.js` version also imports a JSON array of quotes. The
`javascript.js` version also syncs periodically with a mock server: `resolveConflicts`
merges the local and the server list and keeps one record per `id`.

This project models that logic in Dafny and proves what it promises:

- `Reconcile` (javascript.js `resolveConflicts`): a specification function `Reconciled`,
  the source's own loop as the method `ResolveConflicts` proved equal to it, and lemmas:
  - one record per id, in first-appearance order;
  - the kept record is the newest, and on a tie the later one wins;
  - a server copy wins unless it is older; a strictly newer local copy survives;
  - pass-through when the server list is empty;
  - idempotence.
- `SyncedQuotes` (javascript.js): the `QuoteStore` class with `AddQuote` and `Sync`, which
  includes the "changed?" test. Also the built-in quotes and `displayRandomQuote`.
- `QuoteBoard` (script.js): the `Board` class with the form add and the import.
  Also `filterQuotes` and `showRandomQuote`.
- `Catalog`: the category filter, the category dropdown and the random pick. Both versions
  use them; each passes its own record's category accessor.
- `Collections` and `Strings`: the JavaScript built-ins these rely on. `Collections` has
  `map`, `filter` and `[...new Set(xs)]`. `Strings` has `trim`.

Inputs the program reads from the browser are parameters:
- `Date.now()` becomes the `now`, `idStamp` and `updateStamp` parameters.
- `Math.random()` becomes an exact fraction `num / den` with `num < den`.
- The saved category and the stored list become `Option` parameters.
- The parsed import file becomes an `ImportFile` value.

Three points of the merge that follow from the code itself:
- Ties: the `reduce` at javascript.js:147 keeps `a` only when `a.updatedAt > b.updatedAt`.
  So the last of several equally new records wins, and a server copy replaces a local copy
  with the same timestamp (`NewestIsLastAmongTies`, `TiedServerCopyExample`).
- Matching: the merge matches records by `id` only and reports no conflict count.
- The comment at javascript.js:138 says the server version is preferred "if newer". The
  comparison is in fact symmetric: a strictly newer record wins on either side, and the
  server side wins only on ties, because it comes second in the concatenation.

## Model

| member | source | states |
|---|---|---|
| `Reconcile.ResolveConflicts` | dom-manipulation/javascript.js:139-154 | The `forEach` pass with its `seen` set and `merged` list returns exactly `Reconciled(local, server)` |
| `Reconcile.Reconciled` | dom-manipulation/javascript.js:139-153 | The merged ids are the distinct ids of `local ++ server` in first-appearance order, with no repeats. The length is at most `|local| + |server|`. Every merged record comes from the input, and no input record with its id has a later `updatedAt` |
| `Reconcile.Latest` | dom-manipulation/javascript.js:147 | `reduce` without an initial value returns a record of the list whose `updatedAt` is not below any other record's |
| `Reconcile.NewestWithId` | dom-manipulation/javascript.js:146-147 | The record kept for an id carries that id, comes from the input, and is at least as new as every input record with that id |
| `Reconcile.NewestIsLastAmongTies` | dom-manipulation/javascript.js:143-147 | The kept record sits at a position after which every record with the same id is strictly older: among equally new records the last one wins |
| `Reconcile.ServerCopyWinsUnlessOlder` | dom-manipulation/javascript.js:143-148 | Take a server record that is the last server record with its id, with no record of that id newer than it. It is in the merge result, even when a local copy has the same timestamp |
| `Reconcile.NewerLocalCopyKept` | dom-manipulation/javascript.js:143-148 | If a local record is strictly newer than every server record with its id, the merged record for that id comes from the local list |
| `Reconcile.PassThrough` | dom-manipulation/javascript.js:139-153 | With an empty server list and distinct local ids the merge returns the local list unchanged |
| `Reconcile.ReconcileIdempotent` | dom-manipulation/javascript.js:139-154 | Merging the result again with the same server list returns the same result |
| `Reconcile.ReconciledInFirstAppearanceOrder` | dom-manipulation/javascript.js:143-150 | For i < j, the id of merged record i first appears in `local ++ server` before the id of merged record j |
| `Reconcile.MergeOfTwoCopies` | dom-manipulation/javascript.js:143-148 | One local and one server copy of the same id merge into a single record: the newer one, or the server copy on a tie |
| `Reconcile.NewerServerCopyExample` | dom-manipulation/javascript.js:147 | Local category "X" at time 100 and server category "Y" at time 200 merge into the "Y" record |
| `Reconcile.TiedServerCopyExample` | dom-manipulation/javascript.js:147 | Equal timestamps: the server copy (category "Life") replaces the local one ("Motivation") |
| `Reconcile.NewerLocalCopyExample` | dom-manipulation/javascript.js:147 | A newer local copy is kept over an older server copy |
| `SyncedQuotes.QuoteStore.Sync` | dom-manipulation/javascript.js:166-177 | The list becomes the merge of the old list with the server list. `changed` (the notification branch) holds exactly when the merge differs from the old list |
| `SyncedQuotes.SyncTwice` | dom-manipulation/javascript.js:169-176 | A second sync against the same server data reports no change |
| `SyncedQuotes.NewQuote` | dom-manipulation/javascript.js:74-86 | A blank text is rejected. Otherwise the record has the given id and timestamp, the trimmed non-empty text, the trimmed author or "Unknown", and the trimmed category or "General". Author and category are never empty |
| `SyncedQuotes.QuoteStore.AddQuote` | dom-manipulation/javascript.js:73-88 | Blank text leaves the list unchanged. Otherwise exactly that one record is appended at the end, and the earlier entries stay as they were |
| `SyncedQuotes.QuoteStore.constructor` | dom-manipulation/javascript.js:4-14 | The list is the stored list when there is one, else the five built-in quotes |
| `SyncedQuotes.DefaultQuotesPassThrough` | dom-manipulation/javascript.js:4-11 | The built-in quotes have distinct ids, so a merge with an empty server list keeps them unchanged |
| `SyncedQuotes.SelectedCategory` | dom-manipulation/javascript.js:31 | A missing or empty saved choice gives "all". A non-empty saved choice is used as it is. The result is never empty |
| `SyncedQuotes.DisplayRandomQuote` | dom-manipulation/javascript.js:30-47 | The message "No quotes found for this category." appears exactly when no quote matches the selection. Otherwise the shown quote is in the list and has the selected category unless that is "all" |
| `Catalog.InCategory` | dom-manipulation/script.js:63-65 | "all" gives the whole list. Any other category gives exactly the quotes of that category, each as often as in the list, in list order |
| `Catalog.Categories` | dom-manipulation/script.js:26 | The category list has no repeats. It contains the category of every quote and nothing else |
| `Catalog.CategoriesInFirstOccurrenceOrder` | dom-manipulation/script.js:26 | Categories are listed in the order in which the quote list first mentions them |
| `Catalog.Menu` | dom-manipulation/script.js:25-34 | The dropdown is the "all" option labelled "All Categories", then one option per distinct category, whose value and text are that category |
| `Catalog.MenuValues` | dom-manipulation/javascript.js:50-58 | The values one can pick are exactly "all" and the categories of the quotes |
| `Catalog.MenuValuesDistinct` | dom-manipulation/script.js:27-33 | The option values are all different exactly when no quote has the category "all" |
| `Catalog.RandomIndex` | dom-manipulation/script.js:74 | `floor(random * len)` with random in [0, 1) is a position in [0, len) |
| `Catalog.EveryIndexReachable` | dom-manipulation/script.js:103 | Every position in [0, len) is drawn for some random number |
| `Catalog.PickOne` | dom-manipulation/script.js:68-75 | An empty candidate list shows the message and selects nothing. Otherwise the shown quote is one of the candidates |
| `Catalog.PickOneReachesEvery` | dom-manipulation/javascript.js:41 | Every candidate is shown for some random number |
| `QuoteBoard.FilterQuotes` | dom-manipulation/script.js:58-85 | "No quotes available in this category." appears exactly when no quote matches the selection. Otherwise the shown quote is in the list and, unless "all" is selected, has the selected category |
| `QuoteBoard.ShowRandomQuote` | dom-manipulation/script.js:88-111 | With "all", an empty list shows "No quotes available yet. Add one!"; otherwise some quote of the list is shown |
| `QuoteBoard.ShowRandomAgreesWithFilter` | dom-manipulation/script.js:92-100 | For any category other than "all", `showRandomQuote` gives exactly what `filterQuotes` gives, message text included. With any selection both show the same quote and show a message in the same cases |
| `QuoteBoard.FormEntry` | dom-manipulation/script.js:147-155 | Rejected exactly when the trimmed text or the trimmed category is empty. Otherwise the entry is `{text, category}`, both trimmed and non-empty |
| `QuoteBoard.Board.AddFromForm` | dom-manipulation/script.js:146-157 | Rejected input leaves the list unchanged. Accepted input appends exactly the trimmed entry at the end |
| `QuoteBoard.Board.Import` | dom-manipulation/script.js:178-196 | An array makes the list the old list followed by the imported items, with no checks and no de-duplication. A non-array or unreadable file leaves the list unchanged and gives the matching error |
| `QuoteBoard.Board.constructor` | dom-manipulation/script.js:12-17 | The list is the stored list when there is one, else the four built-in quotes |
| `Strings.Trim` | dom-manipulation/script.js:147 | `trim` returns the piece of the input at some position with only whitespace before and after it, and no whitespace at either end of the piece itself. The result is empty exactly when the input is whitespace only |
| `Collections.Map` | dom-manipulation/javascript.js:51 | `map` gives a list of the same length whose i-th element is the callback applied to the i-th input element |
| `Reconcile.WithId` | dom-manipulation/javascript.js:146 | The `filter` keeps exactly the records of the list with the given id, each as often as it occurs in the list, as a subsequence of the list |
| `Reconcile.LaterKeepsNewer` | dom-manipulation/javascript.js:147 | The `reduce` callback returns one of its two records, one not older than either. On equal timestamps it returns the second |
| `SyncedQuotes.OrDefault` | dom-manipulation/javascript.js:75-76 | The logical-or default of `trim()` gives the value or the fallback. It keeps a non-empty value, and is non-empty whenever the fallback is |
| `Strings.IsBlank` | dom-manipulation/javascript.js:78 | `!text` after trimming holds exactly when the input consists of whitespace only (also the test at script.js:150) |
| `Collections.Filter` | dom-manipulation/javascript.js:146 | `filter` keeps exactly the elements satisfying the test, each as often as in the input, as a subsequence of the input |
| `Collections.Distinct` | dom-manipulation/javascript.js:51 | `[...new Set(xs)]` has no repeats and the same elements as xs |
| `Collections.DistinctInFirstOccurrenceOrder` | dom-manipulation/javascript.js:51 | The `Set` lists its values in the order in which they first occur |

## Left out

- The page itself is not modelled: DOM updates, `innerHTML` templates, `alert`s and
  `notifyUser` (javascript.js:157-163).
- The refreshes after a change are not modelled. These are the `populateCategories`,
  `displayRandomQuote` and `showRandomQuote` calls after an add, import or sync.
- Restoring the saved choice into the dropdown is not modelled (javascript.js:61-62,
  script.js:218-221). The selection reaches the model as a parameter.
- `filterQuotes` in javascript.js (lines 66-70) only saves the dropdown value and calls
  `displayRandomQuote`. It is covered through the saved-choice parameter of
  `SyncedQuotes.DisplayRandomQuote`.
- Redisplaying the last viewed quote from `sessionStorage` on load (script.js:203-212) is
  not modelled.
- Browser storage is not modelled. `localStorage` and `sessionStorage` reads and writes
  are out: `saveQuotes`, the saved category and `lastViewedQuote`. The quote list is
  in-memory state.
- `SyncedQuotes.QuoteStore.Sync`: merges the in-memory list. The source reads the stored
  copy (`JSON.parse(localStorage.getItem('quotes')) || []`, javascript.js:167). Before
  anything is saved, that copy is empty while the list holds the built-in quotes.
- `SyncedQuotes.QuoteStore.Sync`: is one atomic step. In the source, `syncQuotes` reads
  storage (javascript.js:167) and then waits for `fetchQuotesFromServer` (line 168). An
  `addQuote` during that wait changes the list and storage. The merge of the stale copy
  then replaces the list (line 173), and the added quote is lost. That lost update is not
  captured.
- The network and timers are not modelled: `fetchQuotesFromServer`, its post-to-quote
  field mapping, `postQuotesToServer` and the 30-second `setInterval`
  (javascript.js:105-136, 179-184). The server list is a parameter of `Sync`.
- `SyncedQuotes.SyncTwice`: assumes two syncs receive the same server list. In the
  program, every fetched record is stamped with a fresh `Date.now()` (javascript.js:116).
  So two successful fetches never return equal lists, and each new copy of ids 1-5 beats
  the previous one. The notification branch (javascript.js:171-176) therefore runs on every
  sync that receives posts. Equal server lists occur only when both fetches fail and
  return `[]`.
- `SyncedQuotes.DefaultQuotes`: the five `Date.now()` readings at javascript.js:6-10 are
  one parameter `now`. The model does not capture the up-to-a-millisecond differences
  between them.
- File handling is not modelled: `FileReader`, the Blob export and `JSON.parse` /
  `JSON.stringify`. Parsing becomes the three-way `ImportFile` value, and the
  `JSON.stringify` comparison at javascript.js:171 becomes sequence inequality.
- `QuoteBoard.Board.Import`: imported elements are taken to be quote-shaped records. JSON
  values of other shapes are not modelled. Neither is a `RangeError` from spreading a very
  large array into `push`.
- `Catalog.RandomIndex`: computes `floor(num * len / den)` exactly. The floating-point
  rounding of `Math.random() * len` is not modelled.
- `SyncedQuotes.QuoteStore.AddQuote`: the two `Date.now()` readings are two parameters,
  and the model places no relation between them.
- JavaScript's handling of records without `id` or `updatedAt` is not modelled (for
  example `script.js` quotes given to the merge). Every merged record has both, as integers.
- Defects in the source are not reproduced; the model uses the evident intent:
  - the missing comma at javascript.js:9 (five built-in quotes are meant);
  - the second `const categoryFilter` at javascript.js:25;
  - the duplicate `category` key at javascript.js:6 (both values are "Motivation");
  - the call of the commented-out `displayQuotes` at script.js:223.
