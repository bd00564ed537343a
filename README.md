# Task tracker: a verified model of the task-list state machine

The application is a browser to-do list (`app.js`). Its logic is one
state object, `state = { tasks, filter }`. `tasks` is an ordered list of
task records, newest first. `filter` is `"all"`, `"active"` or `"done"`.
Six actions change the state: add, toggle, delete, clear done, seed demo
and set filter. Two pure projections read it: the filtered view and the
summary line shown under the list. This project models that core in
Dafny and proves what each action does to the list.

Layout:

- `wrappers.dfy` (`Wrappers`): the `Option` type.
- `lists.dfy` (`Lists`): the order-preserving `Filter` behind
  `Array.prototype.filter`, `Count`, `Reverse` and the subsequence relation.
  It also proves that `Filter` is the *only* subsequence with its
  multiplicities (`FilterUnique`).
- `strings.dfy` (`Strings`): `String.prototype.trim` over the whitespace set
  that ECMAScript defines, and decimal rendering of numbers. A parser reads
  the rendering back, which proves the rendering loses nothing.
- `tasks.dfy` (`Tasks`): the `Task` record. It holds each action's effect on
  the list as a function (`Added`, `Toggled`, `WithoutId`, `ActiveTasks`,
  `AddedAll`), the view (`FilteredTasks`), the summary (`Summary`) and the
  lemmas about them.
- `store.dfy` (`TaskStore`): the `Store` class has the two mutable fields
  `tasks` and `filter`. Its methods reassign them as the actions do, and each
  method's postcondition ties the new state to the function in `Tasks`. It
  also holds `LoadTasks`, the fallback logic of loading.

Inputs that cannot be modelled become parameters:

- `uid()` and `Date.now()` become an `id` and a `now` argument of
  `AddTask`.
- For `SeedDemo` they become a sequence of four ids and four timestamps, one
  per add.
- Local storage becomes the optional raw text taken by the `Store`
  constructor.
- JSON parsing becomes a `parse` function passed in.

The source never guarantees unique ids. `uid()` only makes a collision
unlikely. So `UniqueIds` is not an invariant of the class. It is proved
instead that every action that changes the list keeps `UniqueIds` and
`TrimmedTexts` when each add uses a fresh id. That covers add
(`AddedKeepsInvariants`), toggle (`ToggledKeepsInvariants`), delete and
clear done (`FilterKeepsInvariants`) and seed demo (`SeedDemoKeepsInvariants`).

The view and the summary are functions of `(tasks, filter)`, so computing
them cannot change the list.

Where the names of the actions suggest more than the code does, the model
follows the code:

- Deleting removes every task with the given id, not just one.
- Toggling flips only the first such task.
- A filter value other than `"active"` or `"done"` shows the whole list,
  not only `"all"`.
- Loading treats an empty stored string like a missing one.

## Model

| member | source | states |
|---|---|---|
| `TaskStore.Store.constructor` | app.js:13-16 | The initial state is the loaded list and the filter `"all"`. |
| `TaskStore.LoadTasks` | app.js:19-28 | A missing or empty stored text gives the empty list. So do a parse error and a parsed value that is not an array. A non-empty text that parses to an array gives exactly that array, and a non-empty result is always the parsed array. |
| `TaskStore.Store.SetFilter` | app.js:39-40 | `filter` becomes the given value and `tasks` is untouched. |
| `Tasks.FilteredTasks` | app.js:47-51 | Every view is an order-preserving subsequence of the list. `"active"` holds each not-done task exactly as often as the list does, and nothing else. `"done"` is the same for done tasks. Any other filter value gives the list itself. |
| `Tasks.FilteredTasksDetermined` | app.js:47-51 | Those properties pin the view down. Any order-preserving selection with the active (or done) multiplicities equals the view. |
| `Tasks.DoneTasks` | app.js:49 | The done tasks form an order-preserving subsequence holding each done task as often as the list does, and no task that is not done. |
| `Tasks.ViewsPartition` | app.js:48-49 | The active and done views split the list. Their lengths add up to its length, their multisets add up to its multiset, and no task is in both. |
| `Lists.Filter` | app.js:71 | Filtering gives a subsequence. Each value that passes keeps its multiplicity, no other value occurs, and the length is the number of passing elements. |
| `Lists.FilterUnique` | app.js:71 | Any subsequence with the passing multiplicities is the filter's result. |
| `Strings.Trim` | app.js:55 | The result is a slice of the input with only whitespace cut from either end. It is empty exactly when the input is all whitespace. Otherwise it starts and ends with a non-whitespace character. |
| `Strings.TrimIdempotent` | app.js:55 | Trimming twice is trimming once. |
| `Tasks.Added` | app.js:54-57 | An all-whitespace text leaves the list unchanged. Any other text puts, in front of the unchanged old list, one task with the given id and timestamp, `done` false, and the trimmed text, which is non-empty and trimmed. |
| `TaskStore.Store.AddTask` | app.js:54-57 | `tasks` becomes `Added` of the old list and `filter` is unchanged. |
| `Tasks.NewestFirst` | app.js:57 | After two adds the later task is first, the earlier second, and the old list follows unchanged. |
| `Tasks.AddedKeepsInvariants` | app.js:57 | Adding under an id no task carries keeps ids pairwise distinct and every text trimmed and non-empty. |
| `Tasks.IndexOfId` | app.js:63 | `find` by id returns the first position carrying the id, or nothing when no task carries it. |
| `Tasks.Toggled` | app.js:62-65 | The length and every id, text and timestamp are unchanged. `done` differs exactly at the first task whose id matches. |
| `TaskStore.Store.ToggleTask` | app.js:62-65 | `tasks` becomes `Toggled` of the old list and `filter` is unchanged. |
| `Tasks.Flip` | app.js:65 | Flipping negates `done` and keeps the id, the text and the timestamp. |
| `Tasks.ToggledAbsent` | app.js:63-64 | Toggling an id no task carries changes nothing. |
| `Tasks.ToggleTwice` | app.js:62-65 | Toggling the same id twice restores the original list. |
| `Tasks.ToggledKeepsInvariants` | app.js:65 | Toggling keeps the ids distinct and the texts trimmed. |
| `Tasks.WithoutId` | app.js:70-71 | The result is an order-preserving subsequence with no task carrying the id. Every other task keeps its multiplicity. The length is the old length minus the number of matches. |
| `TaskStore.Store.DeleteTask` | app.js:70-71 | `tasks` becomes `WithoutId` of the old list and `filter` is unchanged. |
| `Tasks.WithoutAbsentId` | app.js:71 | Deleting an id no task carries leaves the list equal to the original. |
| `Tasks.FilterKeepsInvariants` | app.js:71 | Any filter of the list, so deleting and clearing too, keeps ids distinct and texts trimmed. |
| `Tasks.ActiveTasks` | app.js:76-77 | Clearing done tasks gives an order-preserving subsequence with no done task, holding each not-done task as often as before. |
| `TaskStore.Store.ClearDone` | app.js:76-77 | `tasks` becomes `ActiveTasks` of the old list and `filter` is unchanged. |
| `Tasks.ClearDoneIdempotent` | app.js:77 | Clearing done tasks twice gives the same list as clearing once. |
| `Tasks.AddedAll` | app.js:89 | Running addTask over a list of texts adds at most one task per text, and the old list stays unchanged at the bottom. |
| `Lists.Reverse` | app.js:89 | The reversal has the same length, and position k holds the element at position n-1-k. |
| `Tasks.AddedAllTrimmed` | app.js:89 | Adding already trimmed texts in turn equals the new tasks, last added first, in front of the unchanged old list. |
| `Tasks.SeedDemoShape` | app.js:82-89 | Seeding adds exactly four tasks in front of the unchanged old list. From the top they read "Push repo to GitHub", "Open index.html in browser", "Add a task", "Mark it done ✅". All are not done, and the top one carries the last id and timestamp. |
| `Tasks.SeedDemoKeepsInvariants` | app.js:82-89 | Seeding under four distinct ids that no task carries keeps ids distinct and texts trimmed. |
| `TaskStore.Store.SeedDemo` | app.js:82-89 | The new `tasks` is the four demo tasks in their listed order, each not done, in front of the old list. The top task takes the last id and timestamp, and `filter` is unchanged. |
| `TaskStore.Store.AddEach` | app.js:89 | The `forEach` loop calls addTask once per text, the k-th call with the k-th id and timestamp. `tasks` becomes `AddedAll` of the old list. |
| `Tasks.AddedAllReversed` | app.js:89 | Adding trimmed texts back to front leaves them in their given order in front of the unchanged old list. |
| `Tasks.StatsText` | app.js:129-130 | The line is "0 tasks" exactly when the total is zero. Otherwise it starts with the total's numeral, followed by more text. |
| `Tasks.Summary` | app.js:127-130 | The summary is built from the whole list, not the view. Parsing it back gives the list's length and its number of done tasks. |
| `Tasks.SummaryCases` | app.js:127-130 | An empty list gives "0 tasks" and a single task gives "1 task • d done". Any other length n gives "n tasks • d done". Here d is the number of done tasks and d ≤ n. |
| `Tasks.StatsTextRoundTrip` | app.js:129-130 | The summary line can be parsed back into the total and done count it was built from. |
| `Tasks.SummaryDeterminesCounts` | app.js:127-130 | Two lists with the same summary line have the same length and the same number of done tasks. |
| `Strings.NatToString` | app.js:130 | The rendering of a count is a non-empty string of decimal digits. It starts with `0` exactly when the count is zero, so there is no leading zero. |
| `Strings.ParseNumberRoundTrip` | app.js:130 | The decimal rendering that the template literal performs, followed by a non-digit, parses back to the number and that suffix. |
| `Strings.NatToStringInjective` | app.js:130 | Different counts render differently. |
| `Tasks.ScenarioBuyMilk` | app.js:54-57 | Starting empty, adding "Buy milk" gives one open task and the line "1 task • 0 done". |
| `Tasks.ScenarioToggleAndClear` | app.js:62-77 | Add "A", add "B", then toggle A. The line reads "2 tasks • 1 done", the done view holds only A, and clearing leaves only B. |

## Left out

- Rendering the list in `render` is not modelled because it is UI only. That covers the element construction, the cleared `innerHTML`, the aria labels and the per-row listeners (app.js:93-125). The summary line is modelled as a string.
- The event wiring and the clearing and refocusing of the input (app.js:134-146) are not modelled. They are UI; the model starts at the action each event calls.
- Toggling CSS classes in `setFilter` (app.js:41-43) is not modelled because it is UI only.
- `saveTasks` and the `localStorage` calls are not modelled, and neither is the "save, then load gives the list back" round trip. They are foreign browser storage and JSON calls. Loading is modelled through a `parse` argument, and the save after each action is not modelled.
- `uid()` and `Date.now()` (app.js:35-37, 57) are not modelled because they are random and clock-dependent. They become arguments. Unique ids are a precondition of the invariant lemmas, not a fact about the program.
- LoadTasks: models a parsed array as a list of well-formed `Task` records. The source takes any array as it is, including records with missing or mistyped fields.
- The call to `render` after every action is not modelled. Rendering has no effect on the state.
- Object identity is not modelled: `Task` is a value, and `toggleTask` flipping a field of a shared object becomes replacing one element. The filtered views (app.js:48-49) and the per-row listeners (app.js:118-119) share the task objects, but the listeners read only `id`, which never changes, and each view is computed afresh from `state.tasks` at every render. So flipping `done` in place cannot be observed through them.
- Strings are sequences of Unicode scalar values, while JavaScript strings are UTF-16. Every character that trim removes is a single UTF-16 unit, so trimming is unaffected.
