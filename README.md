# hikka-sync reconciliation, modelled in Dafny

hikka-sync copies a user's anime list from Hikka (the source) to AniList (the
destination). Each run fetches the user's Hikka history. It keeps the newest
watch event per title. For each title it looks up the AniList media and the
user's list entry for it, and works out which of the four fields `status`,
`score`, `progress` and `repeat` differ. It then either writes a merged
record back or logs "No changes". This project models that reconciliation
logic of `index.js`:

- `wrappers.dfy`: module `Wrappers`, the `Option` type. `None` stands for a
  JavaScript `undefined` or a `null` object.
- `records.dfy`: module `Records`, the values and records both services exchange.
  - The `data.after` object of a history event is the class `After`. The
    status normalisation overwrites it in place, and the write decision later
    reads the overwritten field.
  - A JSON value is `Null`, a string or an integer.
  - A list entry or patch is a map over the four keys. The normalised local
    record also maps each key, but its values may be `undefined`.
- `history.dfy`: module `History`, the newest-per-slug deduplication of
  `getHikkaUserHistory`.
  - `NewestPerSlug` is the `forEach` loop over a `Map` held as a `held` map
    and an insertion `order`.
  - It is proved against the fold `StoreAll`. Lemmas then show that the held
    event is the newest one and that the order is the order of first
    appearance.
- `compare.dfy`: module `Compare`, the body of `compareEntries`.
  - The status table and its in-place normalisation (`NormalizeHikka`).
  - `removeUndefinedFields`.
  - The `for ... in` loop building `difference` (`CompareEntries`), proved
    equal to the specification function `Diff`.
  - The `{...init, ...diff}` merge, with lemmas on the shape and emptiness of
    the patch.
- `gate.dfy`: module `WriteGate`, the write condition of `sync` and the
  status override of `setAnilistEntry`.
- `sync.dfy`: module `Sync`, the `sync` loop.
  - `Cycle` states what a whole run does.
  - `Sync` runs the loop over class instances and is proved to agree with
    `Cycle`, including which `data.after` objects it normalised.
  - The two network lookups (slug to MAL id, MAL id to AniList media) are a
    parameter `lookup`.

Three behaviours of the code shape the model:

- **Ties in deduplication.** An event whose `updated` equals that of the
  held event does not replace it (strict `<` at `index.js:17`), so the
  earliest of the newest events of a slug is kept. See
  `History.StoreAllNewest`.
- **Titles not yet on the user's list.** When the list entry is `null` and
  the patch is non-empty, `anilistEntry?.mediaListEntry.status` at
  `index.js:168` dereferences `null`. The resulting `TypeError` ends the run
  before anything is written. See `Sync.NewTitleAbortsRun`.
- **Null progress.** The status override at `index.js:78` treats a `null`
  progress as `>= 0`, following JavaScript's conversion of `null` to 0.

## Model

| member | source | states |
|---|---|---|
| History.WatchOnly | index.js:11 | keeps exactly the events whose history type is `watch`, and no others |
| History.WatchOnlyConcat | index.js:11 | filtering a concatenation is the concatenation of the filtered parts, so the filter keeps order and multiplicity |
| History.WatchOnlySingle | index.js:11 | a single event is kept exactly when it is a watch event |
| History.StoreEffect | index.js:17-18 | one `forEach` step: the slug becomes a key, other keys keep their events, a new slug is appended to the order and a known one keeps its slot, and the held event is never older than the previous one or the arriving one |
| History.StoreAll | index.js:14-20 | the `Map` after n events, as a fold of the step; the slug of the latest event is always a key |
| History.NewestUnique | index.js:17-18 | at most one event of a slug is the one kept for it |
| History.StoreAllCovers | index.js:14-20 | after n events, every slug among them is a key of the map |
| History.StoreAllKeys | index.js:14-20 | every key of the map after n events first appears among those n events |
| History.FirstSightAt | index.js:17-18 | a slug that is not yet a key is appended at the position where it first appears |
| History.StoreAllListed | index.js:12-22 | the map's keys are exactly the slugs its insertion order lists |
| History.StoreAllOrder | index.js:14-22 | keys are listed in strictly increasing order of first appearance; a replacement keeps its slot |
| History.StoreAllNewest | index.js:17-18 | the event held for a slug is the newest of that slug, and on a tie the earliest of the newest |
| History.Project | index.js:22-32 | the `{slug, after}` projection of the final map has one entry per slug seen, each from the newest event, in first-appearance order |
| History.NewestPerSlug | index.js:11-32 | the result has distinct slugs; each is a watch slug; every watch slug is present; each entry projects that slug's newest event; entries come in first-appearance order |
| Compare.NormalizeStatus | index.js:115-121 | the five source statuses map to COMPLETED, CURRENT, PAUSED, DROPPED, PLANNING; every other value, `null` and `undefined` included, is unchanged |
| Compare.NormalizedStatusIsAniList | index.js:116-120 | every translated status is in the destination's five-word vocabulary |
| Compare.NormalizeStatusIdempotent | index.js:115-121 | normalising an already normalised status changes nothing |
| Compare.NormalizeHikka | index.js:114-128 | overwrites `status` in place with its normalisation and leaves the other fields alone; returns all four keys, with episodes as progress and rewatches as repeat |
| Compare.RemoveUndefinedFields | index.js:131 | keeps exactly the keys whose value is defined, with those values |
| Compare.Difference | index.js:137-145 | the `difference` object holds exactly the local keys that the entry also has and whose values are strictly unequal, with the local values |
| Compare.Diff | index.js:131-147 | the value `compareEntries` returns: every patch value is the defined local value, and against a list entry every patch key is one the entry has, with a different value |
| Compare.CompareEntries | index.js:110-148 | the `for ... in` loop yields `Diff` of the normalised record, and the `after` object ends up normalised |
| Compare.Merge | index.js:169 | the merged record has the patch's keys plus the entry's; patch values win; every other key keeps the entry's value; a `null` entry adds nothing |
| Compare.DiffShape | index.js:137-147 | a key is in the patch iff the entry has it, the local value is defined and it differs strictly; patch values are the local values |
| Compare.DiffWithoutEntry | index.js:131-135 | with no list entry, the patch is the normalised record minus exactly its undefined fields |
| Compare.DiffEmptyIff | index.js:139-147 | the patch is empty iff every defined local field that the entry has equals the entry's value |
| Compare.RediffAfterMergeIsEmpty | index.js:139-169 | diffing the same local record against the merged record `{...init, ...diff}` gives an empty patch |
| Compare.DiffFirstWrite | index.js:131-135 | a watching/8/5/0 record with no list entry yields the full CURRENT/8/5/0 patch |
| Compare.DiffIdentical | index.js:137-147 | a completed/10/12/0 record against an equal entry yields an empty patch |
| Compare.DiffOneField | index.js:137-147 | one extra episode against an otherwise equal entry yields a patch holding only the progress |
| WriteGate.Gate | index.js:166-169 | the decision is a write iff the patch is non-empty and the entry exists with a different status; it is an error iff the patch is non-empty and the entry is `null`; a write sends the merged record |
| WriteGate.AtLeastZero | index.js:78 | JavaScript's `>= 0` holds exactly when the operand converts to a number at least zero: `null` converts to 0, and `undefined` to NaN |
| WriteGate.AdjustForSend | index.js:78 | the sent status becomes CURRENT exactly when progress is at least zero and status is not COMPLETED; no other field changes |
| WriteGate.ProgressForcesActiveStatus | index.js:78 | a record sent with a non-negative progress always carries CURRENT or COMPLETED |
| WriteGate.AdjustForSendIdempotent | index.js:78 | applying the override twice is the same as once |
| Sync.ItemStep | index.js:154-171 | one loop iteration: no media means a skip; the run crashes exactly when the list entry is `null` and the whole-record patch is non-empty; a write goes to the found media and needs a list entry whose status differs |
| Sync.Cycle | index.js:153-173 | entries are handled in order, each yields its own step's action, and the first step that throws ends the run |
| Sync.AbortedIsFinal | index.js:153-173 | once an entry has thrown, later entries change neither the actions nor the outcome |
| Sync.WrittenIffStatusDiffers | index.js:163-169 | when the entry has a status and the local status is defined, a write happens exactly when the statuses differ, so the patch test is redundant |
| Sync.SameStatusIsNeverWritten | index.js:166-170 | when the statuses match nothing is written, even when the patch holds a changed progress |
| Sync.NewTitleAbortsRun | index.js:163-168 | for a title not on the list, the run aborts exactly when some local field is defined |
| Sync.PlannedWithProgressRewritten | index.js:163-169 | a planned title with progress against a CURRENT entry is written on every run and sent as CURRENT again |
| Sync.SyncEntry | index.js:154-172 | the loop body produces `ItemStep` of the entry, and it normalises `after` exactly when a counterpart was found |
| Sync.Sync | index.js:150-173 | the run's outcome is `Cycle` of the entries as they were, and every entry reached and found has its status normalised in place while all others are untouched |

## Left out

- Network I/O is not modelled.
  - The history request, the MAL-id lookup, the AniList query and the mutation are not modelled.
  - The two lookups are the parameter `lookup`. The write is recorded as the `Written` action holding the record that would be sent.
  - The history page size of 100 is not modelled.
  - Errors from failed requests, malformed responses and a missing `list` are not modelled.
- The scheduling is not modelled: `cron.schedule`, the immediate first run, `Bun.sleep(3000)` pacing and `async`/`await` ordering.
- `console.log` and `console.error` output is not modelled, and neither is the error payload of the write.
- `Bun.env` configuration is not modelled.
- Records.Value: a score is an integer, not a GraphQL `Float`, because only equality is ever applied to it. Booleans, arrays and nested objects as field values are not modelled.
- WriteGate.AtLeastZero: a string progress is treated as NaN, failing `>= 0`, whereas JavaScript would convert a numeric string to a number first.
- WriteGate.AdjustForSend: the override writes `entry.status` of the freshly built `{...init, ...diff}` object in place. No other code sees that object, so the in-place write is modelled as a function on the record.
- Sync.Sync: the remote state is fixed for the whole run, because `lookup` is a function. A write made for one title is therefore not visible to a later title that resolves to the same AniList media.
- Sync.Sync: requires the `after` objects of distinct entries to be distinct objects. Each one comes from its own parsed JSON event.
- Sync.Sync: an aborted run is the `Aborted` outcome. What the runtime does with the unhandled rejection is not modelled, including whether the process and its hourly schedule survive.
