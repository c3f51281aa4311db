# Note-keeper plugin for Mongoose schemas, modelled in Dafny

The plugin takes a schema and a list of watched fields. It gives each
watched field `f` an append-only log `f_history` of `{before, after}` entries
and fills the log from a pre-save hook. The model covers the three parts of
`src/index.ts`:

- **Option validation** (`validation.dfy`, module `Validation`). Four
  assertions run in a fixed order: `fields` is truthy, is an array, is
  non-empty, and every name is a schema path. `Validate` returns the
  validated list or the error of the first check that fails.
- **Plugin entry point** (`plugin.dfy`, class `Plugin.Schema`).
  `ApplyPlugin` validates first. On an error it leaves the schema alone. On
  success it merges the history definitions into the schema and registers one
  pre-save hook.
- **History field synthesis** (`definitions.dfy`, module
  `HistoryDefinitions`). `GenerateDefinitions` maps each watched field to one
  single-key table `f_history ↦ [ {before: T, after: T, timestamp: Date} ]`,
  where `T` is the field's declared type. It then combines the tables as
  Ramda's `mergeAll` does.
- **History recorder** (`recorder.dfy`, module `Recorder`, and
  `documents.dfy`, class `Documents.Document`). The per-field rule, as a
  function on a document snapshot:
  - case A: a new document with a truthy value appends `{before: null, after: v}`;
  - case B: otherwise, a modified field appends `{before: last.after, after: v}`;
  - case C: otherwise, nothing changes.

  `AfterHook` applies the rule to the watched fields in order. The class
  `Document` holds the JavaScript document's state in fields: values,
  history logs, `isNew` and the modified paths. Its methods
  `UpdateHistoryForField` and `RunSaveHook` change that state in place and are
  proved equal to those functions.

JavaScript truthiness (`!!v`) is the predicate `JsValues.Truthy` over a small
value type (undefined, null, booleans, numbers, strings, objects).

On an empty log, case B reads `last([]).after`, which throws (see Findings).
The model uses `null` as the previous value there instead.

## Model

| member | source | states |
|---|---|---|
| `JsValues.Truthy` | src/index.ts:78 | JavaScript's `!!` coercion, used by the checks at lines 10 and 17 too: a value is falsy exactly when it is `undefined`, `null`, `false`, `0` or `""` |
| `Validation.Validate` | src/index.ts:10-19 | accepts exactly a non-empty array whose names are all schema paths and returns it unchanged; each error is returned exactly when its check is the first to fail (a falsy value is "undefined", a truthy non-array "not an array", `[]` "empty", otherwise a missing path) |
| `Validation.EarlierCheckWins` | src/index.ts:10-15 | the order decides: `[]` is reported as empty whatever the schema holds, and a non-array as undefined or not-an-array by its truthiness alone |
| `Validation.ValidateMonotone` | src/index.ts:16-19 | an accepted field list stays accepted when the schema gains paths |
| `HistoryDefinitions.HistoryName` | src/index.ts:49 | the log name is the field's name followed by the suffix `_history` (the same template is used at line 74); `HistoryNameInjective` proves no two fields share one |
| `HistoryDefinitions.HistoryNameInjective` | src/index.ts:49 | two fields share a `<field>_history` name exactly when they are the same field |
| `HistoryDefinitions.MergeAll` | src/index.ts:64 | Ramda's `mergeAll`: every merged table's keys are keys of the result, and the last table's values win on every key it holds; `MergeAllHas` and `MergeAllFrom` give the rest (for any key, the last table holding it wins) |
| `HistoryDefinitions.MergeAllHas` | src/index.ts:64 | every key of a merged table is in the merge |
| `HistoryDefinitions.MergeAllFrom` | src/index.ts:64 | every key of the merge takes its value from the last merged table that holds it: no later table holds the key |
| `HistoryDefinitions.GenerateDefinitions` | src/index.ts:43-65 | every watched field's `<field>_history` name is a key of the synthesized table; `GenerateDefinitionsExact` and `GenerateDefinitionsCount` give its exact keys, values and size |
| `HistoryDefinitions.GenerateDefinitionsExact` | src/index.ts:43-65 | the synthesized table has a key `f + "_history"` for every watched `f`, holding an entry array whose `before` and `after` are `f`'s declared type and whose timestamp is a date; it has no other key |
| `HistoryDefinitions.GenerateDefinitionsCount` | src/index.ts:43-65 | distinct watched fields give exactly one definition each |
| `Plugin.Schema.ApplyPlugin` | src/index.ts:9-31 | returns the validation result; on an error paths, definitions and hooks are all unchanged; on success the definitions are the old ones merged with the synthesized table, every watched field's history path resolves with its entry type, other existing definitions are kept, and exactly one hook over the validated fields is appended |
| `Recorder.NextEntry` | src/index.ts:77-92 | no entry exactly when neither case A nor case B applies; case A gives exactly `{before: null, after: value}`; an entry always records the current value as `after`, and its `before` is `null` or the last entry's `after` (always the latter outside case A on a non-empty log); `AsWrittenAgrees` ties it to the source's branch |
| `Recorder.AfterFieldUpdate` | src/index.ts:73-95 | the rule never changes values, `isNew` or modified paths, and it writes no history key other than `<field>_history` |
| `Recorder.RecordsInitialValue` | src/index.ts:78-82 | case A: a new document with a truthy value gets exactly `{before: null, after: value}` appended, whether or not the field is modified |
| `Recorder.RecordsModification` | src/index.ts:84-88 | case B: otherwise a modified field gets exactly `{before: after of the last entry, after: value}` appended |
| `Recorder.LeavesUntouched` | src/index.ts:89-91 | case C: otherwise the whole document, logs included, is unchanged |
| `Recorder.AppendOnly` | src/index.ts:93-94 | the new log is the old log followed by at most one entry, and the document changes exactly when case A or B applies |
| `Recorder.ChainPreserved` | src/index.ts:78-88 | a chained log (first `before` null, each `before` equal to the previous `after`) stays chained, given that a new document's log is still empty |
| `Recorder.AfterHook` | src/index.ts:28-30 | the hook changes no values, `isNew` or modified paths |
| `Recorder.HookIndependence` | src/index.ts:29 | with distinct watched fields, each watched log after the hook is what the rule alone makes of it, and every unwatched log is unchanged |
| `Recorder.HookPreservesChains` | src/index.ts:29 | with distinct fields, chained logs (empty on a new document) are all still chained after the hook |
| `Recorder.HookIdleSave` | src/index.ts:28-30 | saving an existing document in which no watched field is modified (unwatched fields may be) leaves every log and the whole document unchanged |
| `Recorder.NextEntryAsWritten` | src/index.ts:77-92 | the branch as the source writes it: it throws exactly when case B meets an empty log, skips exactly when neither case applies; case A appends exactly `{before: null, after: value}` and case B on a non-empty log exactly `{before: last.after, after: value}` |
| `Recorder.AsWrittenAgrees` | src/index.ts:77-92 | the source throws exactly when case B meets an empty log; otherwise it skips or appends exactly as the model does |
| `Recorder.LateFirstValueFaults` | src/index.ts:84-88 | a document first saved with its watched field unset keeps an empty log, and the save after setting the field throws in the source |
| `Recorder.LateFirstValueRecorded` | src/index.ts:84-88 | in the model, that save records `[{before: null, after: value}]`, a chained log |
| `Recorder.CharmanderScenario` | spec/plugin.spec.js:41-55 | creating `{name: "Charmander"}` gives a one-entry log; renaming to "Charmeleon" gives two entries, the second `{before: "Charmander", after: "Charmeleon"}` |
| `Documents.Document.UpdateHistoryForField` | src/index.ts:73-95 | the in-place update leaves the document in the state `AfterFieldUpdate` describes; the old log is a prefix of the new one, and a chained log stays chained |
| `Documents.Document.RunSaveHook` | src/index.ts:28-30 | the loop over the watched fields leaves the document in the state `AfterHook` describes |

## Findings

| source | as written | input that shows it | evidently intended | confidence | as-written member | corrected member |
|---|---|---|---|---|---|---|
| src/index.ts:84-88 | case B takes `last(currentHistory).after`; on an empty log `last` gives `undefined` and `.after` throws a TypeError, so the save fails | create a document with the watched `name` unset (case C, log stays `[]`), then set `name` and save | record the first value as `{before: null, after: value}`, as for a new document | not executed; follows from Ramda's `last([])` being `undefined` | `Recorder.LateFirstValueFaults` | `Recorder.LateFirstValueRecorded` |

## Left out

- Mongoose itself. `schema.path`, `schema.obj`, `schema.add`, `schema.pre`
  and the document accessors are modelled as the fields of `Schema` and
  `Document`: plain sets, maps, a flag and a hook list. Nested-path
  resolution and schema casting are not modelled.
- The host's save pipeline. Running registered hooks in order, persisting
  the document, and clearing `isNew` and the modified paths afterwards are
  the store's work. The scenario lemma writes the post-save state out by
  hand.
- `document.set` also marks `<field>_history` as modified in Mongoose. The
  model does not track that. It matters only if a watched field is itself
  named like a history log.
- History logs are kept in a map apart from ordinary values. A watched field
  that is itself a history array is not modelled.
- Plugin.Schema.ApplyPlugin: the registered hook holds the field list that
  was validated. The source's hook closes over `options` and reads
  `options.fields` again at every save (src/index.ts:28-29). So a caller who
  changes `options.fields` after applying the plugin changes what the
  source records, and a field added later has no `_history` path, so
  `currentHistory.concat` (src/index.ts:93) throws. The model captures
  neither that aliasing nor that failure.
- The entry timestamp, filled with `Date.now` by the schema default. It is
  wall-clock time, so `HistoryEntry` has no timestamp. The synthesized
  definition keeps only its type (`DateType`), not the default.
- JavaScript numbers are modelled as integers. `NaN` (falsy) and
  non-integer values are not represented.
- An `options` argument that is itself `undefined`, which throws before any
  check, is not modelled. Neither are array elements that are not strings.
- Repeated watched names. Validation accepts a list that names a field
  twice (src/index.ts:16-19), and the hook's `forEach` (src/index.ts:29)
  then runs the rule twice for it: a created document with a truthy value
  gets two entries with a `null` before, so its log is no longer chained.
  `Recorder.AfterHook` models that faithfully, but `HookIndependence`,
  `HookPreservesChains` and `GenerateDefinitionsCount` require distinct
  names, which the source does not guarantee.
- The unknown-field error carries no field name, as in the source's
  message.
- Recorder.NextEntry: on an empty log, case B uses `null` as the previous
  value, where the source throws (see Findings).
- `rollup.config.js` is build packaging with no logic.
- `spec/plugin.spec.js` is an integration test against a database. It is
  used only for the scenario of `Recorder.CharmanderScenario`.
