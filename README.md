# Tourly tour store, modelled in Dafny

Tourly stores guided product tours. A *tour* is anchored to a page path and carries its
presentation settings. A *step* belongs to one tour and has a place in it (`order_index`), a
title, content, a UI selector and optional per-locale translations. `tourlyStore` is the
data-access layer over the two tables `tours` and `steps`. It offers the admin operations
(list, fetch, create, update, toggle, duplicate and delete tours; create, update, delete and
reorder steps) and the public resolver `getActiveToursByPage`. The resolver decides which
tours a page shows, in which language, and with which page configuration.

The model keeps the two tables as sequences of rows in a class `Store.TourlyStore`. Every
mutating operation is one method on that class: one atomic transaction. Its `ensures` give
the new tables as a function of the old ones. The properties the store promises are proved
about those functions. The main ones:
- dense 0..N-1 numbering after a step is deleted;
- appending at `MAX + 1`;
- a reorder scoped to its tour;
- the allow-list and the "No fields to update" error;
- the inactive duplicate with copied steps and no translations;
- the cascade on delete;
- the resolver's selection, ordering, configuration and all-or-nothing locale rule.

The reads (`getTours`, `getTourById`) and the resolver are pure functions.

Modules:
- `records.dfy`: the `Tour` and `Step` records, update values and errors.
- `strings.dfy`: suffix and case-insensitive substring tests, and the decimal clock suffix.
- `sorting.dfy`: the stable sort that models `ORDER BY`.
- `tables.dfy`: lookups, filters, deletes and table integrity.
- `ordering.dfy`: the `order_index` discipline.
- `columns.dfy`: the allow-lists and partial updates.
- `rows.dfy`: created, duplicated, toggled and updated rows.
- `store.dfy`: the store class.
- `queries.dfy`: the admin reads.
- `resolver.dfy`: the public resolver.

Modelling choices:
- Ids written by the database are natural numbers taken from two counters in the store.
- `NOW()` and `Date.now()` are parameters (`now`, `clockMs`).
- SQL `ORDER BY` becomes a stable insertion sort: rows with equal keys keep table order,
  which SQL leaves open.
- The database's own refusals all become `Err(Rejected)`:
  - a missing `NOT NULL` value on create (`tour_id`, `name`, `page_path`; `title`,
    `content`, `selector`, the non-nullable fields of the record types);
  - an unknown `device_visibility`, on create (after `|| 'all'`) and on update;
  - a step for a tour that does not exist (the foreign key).
- In an update the model itself refuses, also with `Err(Rejected)`, a value not of its
  column's type. This is the model's own choice: the database converts many such values
  (see "## Left out").
- The draft records (`TourDraft`, `StepDraft`) hold absent keys as `None`.
- The update payload of `updateTour`/`updateStep` is its list of entries, as
  `Object.entries` yields them.
- Where the code and its documentation disagree, the model follows the code:
  - `updateTour`, `updateStep` and `toggleTourActive` on a row that does not exist return
    the empty `rows[0]`. This is `Ok(None)` / `None` here, not a not-found error.
  - `deleteStep` runs its renumbering pass even when nothing was deleted.

## Model

| member | source | states |
|---|---|---|
| Tables.FindTour | lib/tourlyStore.ts:81-83 | no row exactly when no tour has the id; otherwise a stored row with that id |
| Tables.FindStep | lib/tourlyStore.ts:254 | a step row is found only when both its id and its tour id match, and nothing is found exactly when no row matches both |
| Tables.StepsOf | lib/tourlyStore.ts:85 | `WHERE tour_id = $1`: exactly the rows of that tour |
| Tables.DeleteTourCascade | lib/tourlyStore.ts:142-145 | deleting a tour and its steps keeps ids unique and the foreign key intact; the tour is gone and it has no steps left; every other tour keeps exactly its steps; a missing id changes neither table |
| Tables.ReplaceTourValid | lib/tourlyStore.ts:136-139 | rewriting one existing tour under its id keeps the tables consistent, the new row is stored and every other row is an old one |
| Tables.ReplaceTour | lib/tourlyStore.ts:136-139 | `UPDATE tours ... WHERE id = $n`: the table keeps its length, the row with that id becomes the new row and every other row stays |
| Tables.ReplaceStep | lib/tourlyStore.ts:254-257 | `UPDATE steps ... WHERE id AND tour_id`: only the row matching both ids is replaced, every other row stays |
| Tables.WithoutStep | lib/tourlyStore.ts:262 | `DELETE FROM steps WHERE id AND tour_id`: exactly the rows other than the one matching both ids remain |
| Tables.WithoutStepsOf | lib/tourlyStore.ts:143-144 | `DELETE FROM steps WHERE tour_id`: exactly the other tours' steps remain |
| Tables.WithoutTour | lib/tourlyStore.ts:144 | `DELETE FROM tours WHERE id`: exactly the other tours remain |
| Tables.WithoutTourAbsent | lib/tourlyStore.ts:144 | deleting an id no tour has leaves the table as it was |
| Tables.WithoutStepsOfNone | lib/tourlyStore.ts:143 | deleting the steps of a tour that has none leaves the table as it was |
| Tables.WithoutStepsOfElsewhere | lib/tourlyStore.ts:143 | deleting one tour's steps leaves every other tour's step list as it was |
| Tables.UniqueOnce | lib/tourlyStore.ts:81 | with unique ids a stored tour occurs exactly once in the table |
| Tables.ReplaceStepValid | lib/tourlyStore.ts:254-257 | rewriting one step in place keeps the tables consistent |
| Ordering.TourSteps | lib/tourlyStore.ts:85 | `ORDER BY order_index ASC`: a permutation of the tour's steps, sorted by position |
| Ordering.DenseCovers | lib/tourlyStore.ts:264-274 | a densely numbered tour of N steps uses every position 0..N-1 exactly once |
| Ordering.DensePermutation | lib/tourlyStore.ts:264-274 | dense numbering does not depend on the order the rows are listed in |
| Ordering.Renumbered | lib/tourlyStore.ts:264-274 | the pass rewrites each row by its rank among its tour's steps in `order_index` order, keeping the table's length |
| Ordering.Reranked | lib/tourlyStore.ts:266 | a step of the ranked list takes as position the place it stands at in that list (its `row_number() - 1`); any other step is unchanged; only `order_index` ever changes |
| Ordering.RenumberedDense | lib/tourlyStore.ts:264-274 | after the `row_number() - 1` pass the tour's positions are 0..N-1, whatever they were before |
| Ordering.RenumberedKeepsOrder | lib/tourlyStore.ts:266 | the pass keeps the relative order of the tour's steps |
| Ordering.RenumberedElsewhere | lib/tourlyStore.ts:268 | the pass leaves other tours' steps identical |
| Ordering.DeleteStepSpec | lib/tourlyStore.ts:260-276 | after `deleteStep` the step is gone, the tour is dense, other tours are untouched, ids stay unique, and rows change only in `order_index` |
| Ordering.AfterStepDeleted | lib/tourlyStore.ts:260-276 | the delete followed by the pass: row k is row k of the remaining rows with only its `order_index` changed |
| Ordering.DeleteMiddleExample | lib/tourlyStore.ts:260-274 | positions [0,1,2] with the middle step deleted become [0,1] |
| Ordering.ApplyOrderUpdate | lib/tourlyStore.ts:282 | one `UPDATE steps SET order_index, updated_at = NOW() WHERE id AND tour_id`: the matching row takes the pair's position and the clock, every other row is unchanged |
| Ordering.LastOrderFor | lib/tourlyStore.ts:280-285 | no position exactly when no pair names the id; otherwise the position of a pair naming it after which no pair names it (the last one wins) |
| Ordering.ReorderedStep | lib/tourlyStore.ts:280-285 | only `order_index` and `updated_at` can change, only for a step of the tour that some pair names, and a changed step carries the clock |
| Ordering.Reordered | lib/tourlyStore.ts:278-287 | applying the pairs one by one equals the closed form: a step of the tour named by some pair takes the last such pair's position and stamps `updated_at`; every other row is unchanged |
| Ordering.LastOrderForDistinct | lib/tourlyStore.ts:280-285 | with distinct ids in the request, each step gets exactly the position its pair names |
| Ordering.ReorderedDense | lib/tourlyStore.ts:278-287 | a request that names every step of the tour once with positions 0..N-1 leaves the tour dense |
| Ordering.ReorderedUntouched | lib/tourlyStore.ts:282 | steps of other tours, and steps no pair names, keep their row |
| Ordering.ReorderedElsewhere | lib/tourlyStore.ts:282 | other tours' step lists are unchanged by a reorder |
| Ordering.MaxOrder | lib/tourlyStore.ts:211 | `MAX(order_index)` of a non-empty tour: a position some step has, at or above every step's position |
| Ordering.NextOrder | lib/tourlyStore.ts:211-212 | 0 for a tour without steps; otherwise one more than a position the tour uses, and above every position it uses |
| Ordering.NextOrderOfDense | lib/tourlyStore.ts:211-212 | on a dense tour of N steps the next position is N |
| Ordering.AppendKeepsDense | lib/tourlyStore.ts:211-224 | appending at the next position keeps a dense tour dense |
| Ordering.AppendElsewhere | lib/tourlyStore.ts:214-224 | appending a step leaves other tours' step lists unchanged |
| Ordering.ReplaceStepKeepsDense | lib/tourlyStore.ts:234-237 | an update that keeps a step's position keeps every tour's numbering |
| Ordering.ReplaceFoundStep | lib/tourlyStore.ts:254-257 | rewriting a found step in place keeps every tour dense that was dense; only old rows and the new one remain |
| Ordering.CopyOf | lib/tourlyStore.ts:188-197 | a copied step has the new id and tour, the same position and every column except `translations`, which starts empty |
| Ordering.Copies | lib/tourlyStore.ts:186-198 | one copy per source step, in the source's order, the k-th with id `firstId + k` |
| Ordering.CopiesDense | lib/tourlyStore.ts:186-198 | the copies are exactly the new tour's steps, and a dense source gives a dense copy |
| Columns.Recognized | lib/tourlyStore.ts:123-129 | an entry is kept exactly when it is in the payload and its key is allow-listed |
| Columns.RecognizedDistinct | lib/tourlyStore.ts:123-129 | filtering keeps keys distinct |
| Columns.CollectFields | lib/tourlyStore.ts:123-131 | the loop collects exactly the allow-listed entries; it collects none exactly when no key is allow-listed (the "No fields to update" case) |
| Columns.SetTourColumn | lib/tourlyStore.ts:125 | `SET key = v` makes column `key` read `v` and leaves every other column, the id and the timestamps as they were |
| Columns.TourDeterminedByColumns | lib/tourlyStore.ts:117-121 | a tour is fixed by its id, timestamps and the 14 updatable columns |
| Columns.PatchTour | lib/tourlyStore.ts:123-136 | the `SET` list never touches the id or the timestamps, and every column the payload does not name keeps its value |
| Columns.PatchTourColumns | lib/tourlyStore.ts:133-136 | after the `SET` list every supplied column holds its value and every other column its old one |
| Columns.SetStepColumn | lib/tourlyStore.ts:241 | `SET key = v` on a step changes only that column and never its id, tour, position or timestamps |
| Columns.StepDeterminedByColumns | lib/tourlyStore.ts:234-237 | a step is fixed by its id, tour, position, timestamps and the 11 updatable columns |
| Columns.PatchStep | lib/tourlyStore.ts:239-254 | no patch moves a step: id, tour, position and timestamps stay, and every column the payload does not name keeps its value |
| Columns.PatchStepColumns | lib/tourlyStore.ts:249-254 | after the `SET` list every supplied step column holds its value and every other its old one |
| Rows.CreatedTour | lib/tourlyStore.ts:91-110 | the insert is refused exactly when `tour_id`, `name` or `page_path` is missing or a non-empty `device_visibility` is not `all`, `desktop` or `mobile`; otherwise the row has the new id, the timestamps of `now` and the supplied identity fields |
| Rows.CreatedTourDefaults | lib/tourlyStore.ts:99-107 | in any accepted draft, each key left out gets its own default, whatever else is supplied: active, `0,0,0`, `0.2`, non-interactive, the three theme classes, `all`, and no description or transition |
| Rows.DraftDevice | lib/tourlyStore.ts:106 | `device_visibility \|\| 'all'`: absent or empty gives `all`; otherwise the device the supplied text names, if it names one |
| Rows.CreatedTourFallbacks | lib/tourlyStore.ts:100-106 | `is_active` keeps an explicit `false` (`??`); an explicit `false` for `interact` gives a non-interactive tour; each of the six `\|\|` defaults (`shadow_rgb`, `shadow_opacity`, `bg_color`, `text_color`, `font_family`, `device_visibility`) also replaces an empty string (`\|\|`) |
| Rows.CreatedTourKeepsSupplied | lib/tourlyStore.ts:99-107 | every non-empty supplied value is the value stored; a supplied device is stored as the device of that name |
| Rows.CreatedStep | lib/tourlyStore.ts:214-225 | refused exactly when `title`, `content` or `selector` is missing; otherwise the step has the given tour, id and position and the supplied text |
| Rows.CreatedStepDefaults | lib/tourlyStore.ts:218-222 | in any complete draft, each key left out gets its own default, whatever else is supplied: side `bottom`, controls shown, padding and radius 10, translations `{}`, no icon or routes |
| Rows.CreatedStepFallbacks | lib/tourlyStore.ts:220-222 | 0 and `false` are kept (`??`); an empty side falls back (`\|\|`) |
| Rows.CreatedStepKeepsSupplied | lib/tourlyStore.ts:220-222 | every supplied `show_controls`, `pointer_padding`, `pointer_radius` and `translations`, and every non-empty `side`, is the value stored |
| Rows.DuplicatedTour | lib/tourlyStore.ts:163-182 | the copy is inactive, its slug is `<slug>-copy-<suffix>` (so it starts with `<slug>-copy-` and ends with the suffix), its name is `<name> (Copy)`, and every other column is copied |
| Rows.ToggledTour | lib/tourlyStore.ts:149 | `is_active` flips, `updated_at` is stamped, and no other column changes |
| Rows.ToggleTwice | lib/tourlyStore.ts:149 | toggling twice restores the tour up to `updated_at` |
| Rows.UpdatedTour | lib/tourlyStore.ts:130-139 | exactly the supplied columns change, plus `updated_at`; the id is kept |
| Rows.UpdatedStep | lib/tourlyStore.ts:246-257 | exactly the supplied step columns change, plus `updated_at`; id, tour and position are kept |
| Strings.DecimalRoundTrip | lib/tourlyStore.ts:163 | the decimal numeral of the clock reading denotes that reading |
| Strings.DecimalSuffix | lib/tourlyStore.ts:163 | the last k digits of a numeral denote the number modulo 10^k |
| Strings.ClockSuffix | lib/tourlyStore.ts:163 | `slice(-4)` gives one to four digits denoting the clock reading modulo 10000 |
| Store.TourlyStore.CreateTour | lib/tourlyStore.ts:91-110 | appends the created row under a fresh id, or changes nothing when the insert is refused; the tables stay consistent |
| Store.TourlyStore.UpdateTour | lib/tourlyStore.ts:112-140 | no allow-listed key gives `NoFieldsToUpdate`; an unfit value is refused; a missing tour gives no row; otherwise only that tour is rewritten |
| Store.TourlyStore.DeleteTour | lib/tourlyStore.ts:142-145 | removes the tour and all its steps; every other tour keeps exactly its steps; a missing id changes neither table |
| Store.TourlyStore.ToggleTourActive | lib/tourlyStore.ts:147-153 | only the matching tour is toggled; a missing tour gives no row |
| Store.TourlyStore.DuplicateTour | lib/tourlyStore.ts:155-202 | a missing source gives `TourNotFound` and no change; otherwise the copy and one copied step per source step, in order, are appended, each counter advances by what was inserted, and nothing else changes; on `TourNotFound` the counters stay too |
| Store.TourlyStore.CopySteps | lib/tourlyStore.ts:186-198 | the copy loop appends exactly the copies of the source steps, in order, with consecutive fresh ids |
| Store.TourlyStore.CreateStep | lib/tourlyStore.ts:208-227 | a missing tour is refused; otherwise the step is appended at the next position; dense tours stay dense and other tours are untouched |
| Store.TourlyStore.UpdateStep | lib/tourlyStore.ts:229-258 | as `updateTour`, matching on step id and tour id; no step moves, so every dense tour stays dense |
| Store.TourlyStore.DeleteStep | lib/tourlyStore.ts:260-276 | the step is gone, its tour is numbered 0..N-1 and other tours are untouched |
| Store.TourlyStore.ReorderSteps | lib/tourlyStore.ts:278-287 | the loop's result is the reorder's closed form; other tours are untouched |
| Queries.MatchesSearch | lib/tourlyStore.ts:59-63 | definition: an absent or empty search matches everything, otherwise the name or the page path contains it ignoring case |
| Queries.MatchesActivity | lib/tourlyStore.ts:65-69 | definition: `active` keeps active tours, `inactive` inactive ones, any other value keeps all |
| Queries.ListedTours | lib/tourlyStore.ts:54-69 | a tour is listed exactly when it matches the search (empty search: all) and the activity filter |
| Queries.Summaries | lib/tourlyStore.ts:74-77 | one summary per tour, in order, with `steps_count` the number of that tour's steps |
| Queries.ListTours | lib/tourlyStore.ts:49-78 | the listed tours are the matching ones, newest first, each with the count of its steps |
| Queries.ListToursOnce | lib/tourlyStore.ts:71 | with unique ids each matching tour is listed exactly once |
| Queries.ListAll | lib/tourlyStore.ts:49-78 | with no search or filter every tour is listed |
| Queries.TourById | lib/tourlyStore.ts:80-89 | no result exactly when the id is missing; otherwise the tour with all its steps sorted by `order_index` |
| Queries.TourByIdPositions | lib/tourlyStore.ts:85 | on a dense tour, step k of the result has `order_index` k |
| Resolver.RequestedDevice | lib/tourlyStore.ts:307 | `device \|\| 'all'`: absent or empty gives `all`, anything else is used as given |
| Resolver.PathMatches | lib/tourlyStore.ts:299-303 | a match is exactly a suffix relation in one direction or the other; the equality test is subsumed |
| Resolver.Selected | lib/tourlyStore.ts:299-305 | definition: path match, active, and device `all` or the requested one |
| Resolver.SelectedTours | lib/tourlyStore.ts:297-307 | a tour is selected exactly when active, visible on the device (`all` by default), and its path equals or is a suffix of the page path or the other way round |
| Resolver.SelectedMultiplicity | lib/tourlyStore.ts:297-306 | the filter keeps a selected tour as many times as the table holds it |
| Resolver.Candidates | lib/tourlyStore.ts:297-306 | the selected tours, oldest first, as a permutation of the selection |
| Resolver.NonEnglish | lib/tourlyStore.ts:341 | definition: a non-empty locale that does not start with `en` |
| Resolver.Complete | lib/tourlyStore.ts:342 | definition: the locale is in the step's translations with a non-empty title and content |
| Resolver.TranslationsOf | lib/tourlyStore.ts:335 | definition: the step's translations, `{}` when the column is null |
| Resolver.ShowStep | lib/tourlyStore.ts:337-362 | a non-English locale with complete translation gives the translated title and content; otherwise the originals; icon, selector, side, controls, padding, radius, both routes and the translations are projected unchanged |
| Resolver.ShowSteps | lib/tourlyStore.ts:334-363 | one shown step per step, in order, each as `ShowStep` gives it |
| Resolver.Untranslated | lib/tourlyStore.ts:333-343 | definition: `skipTour` is set exactly when the locale is non-English and some step lacks a complete translation |
| Resolver.ShowTour | lib/tourlyStore.ts:332-370 | a tour is shown exactly when it has steps and, under a non-English locale, every step has a non-empty translated title and content |
| Resolver.Survivors | lib/tourlyStore.ts:332-371 | the shown tours keep candidate (creation) order |
| Resolver.SurvivorsMultiplicity | lib/tourlyStore.ts:332-371 | a tour that is shown survives as many times as it is a candidate |
| Resolver.ShownMultiplicity | lib/tourlyStore.ts:297-371 | every shown tour occurs as often as in the table |
| Resolver.ConfigOf | lib/tourlyStore.ts:318-328 | the page configuration copies all seven presentation fields of the tour (`shadowRgb`, `shadowOpacity`, `interact`, `bgColor`, `textColor`, `fontFamily`, `cardTransition`), with the card transition defaulting to spring/300 |
| Resolver.ActiveToursByPage | lib/tourlyStore.ts:293-374 | no configuration exactly when no tour is selected, and then no tours |
| Resolver.ActiveToursShown | lib/tourlyStore.ts:330-373 | the answer is the survivors of the oldest-first candidates: exactly the selected tours with steps and complete translations, each as often as in the table, so exactly once when ids are unique |
| Resolver.ShownAnswer | lib/tourlyStore.ts:330-373 | the answer holds one shown tour per survivor, in order, each as `ShowTour` gives it |
| Resolver.ShownMembers | lib/tourlyStore.ts:297-371 | the survivors are oldest first and are exactly the selected tours with steps and a complete translation |
| Resolver.ActiveToursConfig | lib/tourlyStore.ts:316-328 | the configuration comes from a selected tour created no later than any other selected tour |
| Resolver.ShownStepsTranslated | lib/tourlyStore.ts:341-348 | under a non-English locale every shown step carries its translation |
| Resolver.ShownStepsOriginal | lib/tourlyStore.ts:340-348 | with no locale or an `en*` locale every step keeps its original text |
| Resolver.PathMatchExamples | lib/tourlyStore.ts:294-303 | `/en/dashboard` matches `/dashboard`, `/dashboard` matches `/app/dashboard`, `/settings` matches neither |

## Left out

- SQL text, the query and transaction client, and parameter numbering are not modelled. Each operation is one atomic method on in-memory tables.
- Transaction failures and storage errors are not modelled. So are concurrency and the race between concurrent `createStep` calls on the next position.
- Uniqueness of the `tour_id` slug is a database constraint, with no logic in the code, and is not modelled. A duplicate whose slug collides is not refused in the model.
- `ILIKE` and `LIKE` wildcard characters are not modelled. This covers a search, a stored `page_path` in `$1 LIKE '%' || page_path`, and the requested page path, which `page_path LIKE '%' || $1` also uses as a pattern: there a requested `/my_page` matches a stored `/myXpage`; in the model it does not. Search is a plain substring test and path matching a plain suffix test.
- `Strings.Lower`: case folding covers ASCII letters only. `ILIKE` folds every letter the database knows.
- `JSON.parse` of `translations` and `card_transition` is not modelled. Both are taken as already-structured values.
- Timestamps and the clock are parameters. Database-generated ids come from counters in the store.
- Step translations are a map of locale to a pair of optional strings. JavaScript's prototype keys and non-string values in that JSON are not modelled.
- Store.TourlyStore.UpdateTour: the database's coercion of text parameters is not modelled. The database stores `{name: 5}` as `"5"`, `{is_active: "true"}` as true and `pointer_padding: "12"` as 12. The model accepts only a value of the column's own type and refuses any other with `Rejected`. Fractional numbers such as `shadow_opacity: 0.5` cannot be written, because numbers are integers here.
- Store.TourlyStore.UpdateStep: the same; coercion of text parameters is not modelled, only values of the column's own type are accepted, and fractional numbers cannot be written.
- Ordering.CopyOf: the copy's `translations` is taken to be the column default `{}`. The copy INSERT leaves the column out and the schema is not part of this model.
- Store.TourlyStore.UpdateTour: a value whose type does not fit its column is refused before the row is looked up. In the database no row is formed when no tour has the id, so no constraint is checked and the result is the missing `rows[0]`. For example `{name: null}` on a missing tour gives no row there, but `Rejected` in the model.
- Store.TourlyStore.UpdateStep: the same ordering. A value that does not fit its column is refused before the step is looked up. In the database, `{title: null}` for a step id and tour id that match no row forms no row, checks no `NOT NULL` and returns the missing `rows[0]`. The model returns `Rejected`.
- The HTTP route layer, the admin check, the React playback context and the type re-export files are not part of this model. Neither is the translation merge under `app/api/tours/[id]/translate`.
