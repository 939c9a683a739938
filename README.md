# Phrase admin UI: the deterministic core in Dafny

This project models the decision logic of a small phrase administration
client: phrases with a status (active, pending or spam) and a list of
translations, one per language.

- `types.dfy`, module `PhraseTypes`: the value shapes. These are the translation row, the form values (which are also the create and update payloads), a loaded phrase and a language catalog entry. `Truthy` is JavaScript truthiness of an optional string.
- `schema.dfy`, module `PhraseSchema`: the create and update validation rules. Validating returns the list of issues found, in field order, and a payload is valid when that list is empty. Parsing with the create rules drops the undeclared phrase `id`.
- `format_output.dfy`, module `PhraseFormat`: `formatPhraseOutput`. It is a left fold of a translation list into a language-to-text map.
- `phrase_form.dfy`, module `PhraseForm`: the create/edit form. Class `CreateEditPhraseForm` holds the `editId` prop, the `isEditMode` flag, the form values and the pending-removal id list (null until the first removal of a persisted row while editing). Its methods are the row editing handlers and the two effects. Submission is the pure function `SubmitEffects`, which maps the form state and the abstract outcome of each server call to the ordered trace of calls and callbacks.
- `phrase_list.dfy`, module `PhraseList`: the list/search view. The pure parts are the `field:dir,field:dir` sort string (with a reference `split` that reads it back), the two search-parameter records, the sort-field toggle and the language label lookup. Class `PhraseTemplate` holds the view state: search term, sort fields, direction, the parameter ref, the record the last render built the query from, and the form and delete dialog flags. Its methods are the event handlers and the delete-mutation callbacks.

Behaviours of the code worth knowing:

- Closing the form does not clear the pending-removal list. The list lives in form state that is never reset, and the form stays mounted between uses. A translation removed while editing one phrase and then abandoned is still deleted when another phrase is edited and submitted (`PendingRemovalsOutliveEditTarget`).
- The rule set is picked by `isEditMode`, an effect that follows `editId`. The submit branch tests `editId` itself. The model keeps both inputs, so the state before the effect has run is also covered.
- The default values fail validation on the empty phrase as well as on the empty translation row.

## Model

| member | source | states |
|---|---|---|
| PhraseSchema.ParseCreate | src/modules/phrase/forms/create-phrase/schema.ts:12-20 | create parsing succeeds only on a create-valid payload and then returns it with `id` dropped; otherwise it returns the non-empty list of issues |
| PhraseSchema.ParseUpdate | src/modules/phrase/forms/create-phrase/schema.ts:23-25 | update parsing succeeds only on an update-valid payload and returns it unchanged; otherwise it returns the non-empty list of issues |
| PhraseSchema.CreateValidIff | src/modules/phrase/forms/create-phrase/schema.ts:6-18 | create-valid iff phrase non-empty, status in {active, pending, spam}, at least one translation, and every translation has a non-empty language and text |
| PhraseSchema.UpdateValidIff | src/modules/phrase/forms/create-phrase/schema.ts:23-25 | update-valid iff create-valid and `id` is present and non-empty |
| PhraseSchema.UpdateValidImpliesCreateValid | src/modules/phrase/forms/create-phrase/schema.ts:23-25 | the update rules only add a constraint |
| PhraseSchema.EmptyTranslationsRejected | src/modules/phrase/forms/create-phrase/schema.ts:15-17 | an empty translation list yields the "at least one translation" issue and fails both rule sets whatever the other fields are |
| PhraseSchema.InvalidStatusRejected | src/modules/phrase/forms/create-phrase/schema.ts:3-14 | a status outside the enum is reported and fails both rule sets |
| PhraseSchema.RowIssueIff | src/modules/phrase/forms/create-phrase/schema.ts:8-9 | the language (text) issue for row k is reported iff row k exists and its language (text) is empty |
| PhraseSchema.IdsIgnoredByCreateRules | src/modules/phrase/forms/create-phrase/schema.ts:7 | changing the phrase id or any translation's optional id never changes the issues found, so never changes validity |
| PhraseSchema.DefaultValuesRejected | src/modules/phrase/forms/create-phrase/index.tsx:69-73 | the default values give exactly the phrase, row-0 language and row-0 text issues, plus a missing id under the update rules |
| PhraseFormat.FormatEmpty | src/modules/phrase/utils/index.ts:7 | the empty list gives the empty map |
| PhraseFormat.FormatSnoc | src/modules/phrase/utils/index.ts:4-6 | formatting `xs + [t]` is formatting `xs` and then setting `t.language` to `t.text` |
| PhraseFormat.FormatKeys | src/modules/phrase/utils/index.ts:4-6 | the key set is exactly the set of languages in the input |
| PhraseFormat.FormatLastWins | src/modules/phrase/utils/index.ts:5 | an entry with no later entry of the same language supplies the value for its language |
| PhraseFormat.FormatValueIsLastText | src/modules/phrase/utils/index.ts:4-6 | every value is the text of the last entry with that key's language |
| PhraseFormat.FormatSizeDistinct | src/modules/phrase/utils/index.ts:4-7 | with distinct languages the map has one entry per translation |
| PhraseFormat.FormatOrderIndependent | src/modules/phrase/utils/index.ts:4-7 | with distinct languages, two lists holding the same translations in any order give the same map |
| PhraseForm.WithoutIndexSpec | src/modules/phrase/forms/create-phrase/index.tsx:90-93 | filtering out position `index` is `s[..index] + s[index+1..]` when in range, and `s` unchanged otherwise |
| PhraseForm.RemoveTranslationRows | src/modules/phrase/forms/create-phrase/index.tsx:90-93 | removal drops exactly the row at `index` and keeps the rest in order; an out-of-range index changes nothing; with the remove button enabled at least one row remains |
| PhraseForm.AfterRemoveOnlyGrows | src/modules/phrase/forms/create-phrase/index.tsx:86-89 | the pending list gains `id` at its end iff editing and `id` is truthy, is otherwise untouched, and is never shortened or deduplicated |
| PhraseForm.UnpersistedRowsUnlocked | src/modules/phrase/forms/create-phrase/index.tsx:253 | a row without a truthy id, or any row in create mode, keeps its language selector enabled |
| PhraseForm.SubmitBlockedWhenInvalid | src/modules/phrase/forms/create-phrase/index.tsx:59-68 | values failing the active rule set issue no call and run no callback |
| PhraseForm.DefaultValuesCannotBeSubmitted | src/modules/phrase/forms/create-phrase/index.tsx:119-125 | the default values can never be submitted, in either mode |
| PhraseForm.SubmitCreates | src/modules/phrase/forms/create-phrase/index.tsx:128-138 | with a falsy `editId` the only call is one create of the parsed data; on success the caller is notified once and the form closes; on failure neither happens, and the by-id phrase is never refetched |
| PhraseForm.SubmitDeletesThenUpdates | src/modules/phrase/forms/create-phrase/index.tsx:157-166 | editing with pending removals: the calls are the delete of exactly the pending ids, then the update iff the delete succeeded; notify and close happen only if both succeed |
| PhraseForm.SubmitUpdatesDirectly | src/modules/phrase/forms/create-phrase/index.tsx:167-169 | editing with a null or empty pending list: the only call is the update, with no delete; notify and close follow its success |
| PhraseForm.EditModeUpdatesLoadedId | src/modules/phrase/forms/create-phrase/index.tsx:111-118 | once in edit mode with a loaded phrase, a successful path sends the update for that phrase's id with the reset values |
| PhraseForm.AddTranslationFromDefaults | src/modules/phrase/forms/create-phrase/index.tsx:82-84 | from the defaults, adding a row gives two empty rows |
| PhraseForm.PendingRemovalsOutliveEditTarget | src/modules/phrase/forms/create-phrase/index.tsx:53-55 | a removal made while editing one phrase is still deleted first when another phrase is edited and submitted after closing |
| PhraseForm.CreateEditPhraseForm.constructor | src/modules/phrase/forms/create-phrase/index.tsx:53-74 | mounting starts with the default values, not in edit mode, and a null pending list |
| PhraseForm.CreateEditPhraseForm.ReceiveEditId | src/modules/phrase/forms/create-phrase/index.tsx:47-52 | a new `editId` prop changes nothing else |
| PhraseForm.CreateEditPhraseForm.SyncEditMode | src/modules/phrase/forms/create-phrase/index.tsx:106-109 | edit mode becomes the truthiness of `editId` |
| PhraseForm.CreateEditPhraseForm.ApplyReset | src/modules/phrase/forms/create-phrase/index.tsx:111-126 | in edit mode with a loaded phrase the values become its id, phrase, status and translations; otherwise the defaults; the pending list is untouched |
| PhraseForm.CreateEditPhraseForm.AddTranslation | src/modules/phrase/forms/create-phrase/index.tsx:82-84 | one empty row appended; earlier rows and the other fields unchanged |
| PhraseForm.CreateEditPhraseForm.RemoveTranslation | src/modules/phrase/forms/create-phrase/index.tsx:86-94 | rows filtered by position and pending list updated as `AfterRemove`; other fields unchanged |
| PhraseForm.CreateEditPhraseForm.Submit | src/modules/phrase/forms/create-phrase/index.tsx:155-173 | the trace is `SubmitEffects` of the current state, whose properties are the Submit* lemmas |
| PhraseForm.CreateEditPhraseForm.LanguageDisabled | src/modules/phrase/forms/create-phrase/index.tsx:253 | a row's language selector is disabled iff `editId` and the row's id are both truthy |
| PhraseForm.CreateEditPhraseForm.RemoveButtonDisabled | src/modules/phrase/forms/create-phrase/index.tsx:276 | remove buttons are enabled iff there are at least two rows, and then any removal leaves a row |
| PhraseList.SplitJoin | src/modules/phrase/templates/index.tsx:67 | splitting a join of separator-free parts returns the parts |
| PhraseList.SortStringSegments | src/modules/phrase/templates/index.tsx:163 | no fields give ""; otherwise there is one segment per field, in field order, each `field:dir` with the shared direction |
| PhraseList.InitialSortString | src/modules/phrase/templates/index.tsx:61-67 | the initial state sorts by "phrase:asc" |
| PhraseList.TwoFieldSortString | src/modules/phrase/templates/index.tsx:163 | phrase and status descending give "phrase:desc,status:desc" |
| PhraseList.SearchFieldsAsymmetry | src/modules/phrase/templates/index.tsx:65-69 | the mount-time and debounced parameters agree except `searchFields`, where the mount-time value adds ",translations.text" |
| PhraseList.WithoutFieldAppend | src/modules/phrase/templates/index.tsx:101 | unchecking filters each part of the list separately, so the kept fields stay in order |
| PhraseList.WithoutFieldCounts | src/modules/phrase/templates/index.tsx:101 | unchecking removes every occurrence of the field and keeps every other field as often as before |
| PhraseList.WithoutAbsentField | src/modules/phrase/templates/index.tsx:101 | unchecking a field that is not there leaves the list unchanged |
| PhraseList.SortFieldToggle | src/modules/phrase/templates/index.tsx:99-102 | checking appends at the end with no duplicate guard; after unchecking the field is absent; checking then unchecking an absent field restores the list |
| PhraseList.LanguageLabelFirstMatch | src/modules/phrase/templates/index.tsx:343-345 | the first catalog entry with the code gives the label: its name, or the raw code if the name is empty |
| PhraseList.LanguageLabelFallback | src/modules/phrase/templates/index.tsx:343-345 | with no catalog entry for the code, the label is the raw code |
| PhraseList.PhraseTemplate.constructor | src/modules/phrase/templates/index.tsx:60-79 | mounting: sort by phrase ascending, parameters ("", "phrase:asc", "phrase,status,translations.text"), no dialog open |
| PhraseList.PhraseTemplate.HandleSortFieldChange | src/modules/phrase/templates/index.tsx:96-103 | checked appends the field; unchecked filters it out |
| PhraseList.PhraseTemplate.HandleSortOrderChange | src/modules/phrase/templates/index.tsx:105-107 | the direction becomes the chosen one |
| PhraseList.PhraseTemplate.HandleSearchChange | src/modules/phrase/templates/index.tsx:178-180 | the search term becomes the input |
| PhraseList.PhraseTemplate.Render | src/modules/phrase/templates/index.tsx:71-73 | a render builds the query from the record the ref holds at that moment |
| PhraseList.PhraseTemplate.RunDebouncedSearch | src/modules/phrase/templates/index.tsx:159-169 | the ref becomes (term, current sort string, "phrase,status"); the refetch sends the record of the last render, not the new one |
| PhraseList.SearchLagsOneRender | src/modules/phrase/templates/index.tsx:65-73 | after typing a term, the debounced refetch still sends the mount-time record; the typed term is in the query key only after a later render |
| PhraseList.PhraseTemplate.HandleOpenCreateForm | src/modules/phrase/templates/index.tsx:109-111 | the form opens |
| PhraseList.PhraseTemplate.HandleEditClick | src/modules/phrase/templates/index.tsx:313-316 | the row's id becomes the edit target and the form opens |
| PhraseList.PhraseTemplate.HandleDeleteClick | src/modules/phrase/templates/index.tsx:119-122 | the row's id becomes the phrase to delete and the dialog opens |
| PhraseList.PhraseTemplate.ResetForm | src/modules/phrase/templates/index.tsx:124-129 | form closed, no edit target, dialog closed, nothing to delete |
| PhraseList.PhraseTemplate.HandleCloseCreateForm | src/modules/phrase/templates/index.tsx:113-117 | ends in the reset state |
| PhraseList.PhraseTemplate.HandleDeleteCancel | src/modules/phrase/templates/index.tsx:137-139 | ends in the reset state and issues no call |
| PhraseList.PhraseTemplate.HandleDeleteConfirm | src/modules/phrase/templates/index.tsx:131-135 | a remove call is issued iff `phraseToDelete` is truthy, and then for exactly that id |
| PhraseList.PhraseTemplate.DeleteSucceeded | src/modules/phrase/templates/index.tsx:85-89 | a successful delete ends in the reset state |
| PhraseList.PhraseTemplate.DeleteFailed | src/modules/phrase/templates/index.tsx:90-93 | a failed delete leaves the state unchanged |
| PhraseList.DeleteFlow | src/modules/phrase/templates/index.tsx:119-135 | click then confirm removes that row's id iff the id is non-empty; the dialog state is reset iff the call was issued and succeeded |
| PhraseList.CancelFlow | src/modules/phrase/templates/index.tsx:137-139 | click then cancel leaves nothing to delete and the dialog state reset |

## Left out

- The HTTP client (`src/api/clients/PhraseClient.ts`), its `CrudClient` base (not part of this model) and the response envelope. Each server call is an abstract success or failure.
- The query hooks (`use-phrase`, `use-phrases`, `use-languages`) and the query cache. The loaded phrase and the language catalog are parameters; an absent catalog is `None`.
- Timing. The 500 ms debounce, cancelling a pending search and the asynchronous interleaving of mutations are left out. `RunDebouncedSearch` is the callback at the moment it fires, and `Render` is a render at whatever moment React schedules it.
- Notifications (toasts, including the doubled "Failed to delete translations" on a failed delete), `console.log`, and all rendering: the modal, the popover and its anchor, and the table.
- The close and submit buttons being disabled while a create or update is pending (forms/create-phrase/index.tsx:187-189, 353-355). They depend on in-flight request state, which is not modelled.
- The texts of the validation messages. Issues are kinds with a row position. An absent update `id` is a separate kind (`IdMissing`) because the validator reports it with its own default message.
- Server-only translation and phrase fields (`phraseId`, `createdAt`, `updatedAt`). No rule reads them.
- RunDebouncedSearch: the refetch re-sends the parameters of the last render (the query key and `queryFn` are built from the ref's value at render time), so the record it builds is sent only when a later render makes it the query key. The model records this lag but not which later render, if any, React performs.
- FormatPhraseOutput: the fold assigns into a plain JavaScript object, where assigning a string to the key `__proto__` is ignored; the model's map would store it. Language codes are taken never to be `__proto__`.
- Stripping of undeclared keys inside each translation row. The model's rows carry only declared keys, so there is nothing to strip.
